/**
 * A model of consistency.py: a detector of terms that a tokenized text writes
 * in more than one way (capitalization, hyphenation, spacing).
 *
 * Phase 1 maps every window of 1 to 9 consecutive tokens to a canonical key and
 * collects, per key, the distinct surface forms seen.  Phase 2 drops every key
 * with fewer than two forms, and every key where some consecutive pair of forms
 * is changed by `LowerCase`, `split`, `StripCommonFixes` and a rejoin.
 *
 * The tokenizer is not modelled: the detector starts from its token list.
 */
module Consistency {
  import opened Text

  // ===========================================================================
  // strip_common_fixes
  // ===========================================================================

  /** The length of the longest common leading run of `a` and `b`. */
  function CommonPrefixLength(a: seq<string>, b: seq<string>): (k: nat)
    ensures k <= |a| && k <= |b|
  {
    if a == [] || b == [] || a[0] != b[0] then 0
    else 1 + CommonPrefixLength(a[1..], b[1..])
  }

  /** The first `k` elements agree and the next ones (if both exist) differ. */
  lemma {:induction false} CommonPrefixSpec(a: seq<string>, b: seq<string>)
    ensures var k := CommonPrefixLength(a, b);
      && (forall i :: 0 <= i < k ==> a[i] == b[i])
      && (k == |a| || k == |b| || a[k] != b[k])
  {
    if a != [] && b != [] && a[0] == b[0] {
      CommonPrefixSpec(a[1..], b[1..]);
    }
  }

  /** The length of the longest common trailing run of `a` and `b`. */
  function CommonSuffixLength(a: seq<string>, b: seq<string>): (m: nat)
    ensures m <= |a| && m <= |b|
  {
    if a == [] || b == [] || a[|a| - 1] != b[|b| - 1] then 0
    else 1 + CommonSuffixLength(a[..|a| - 1], b[..|b| - 1])
  }

  /** The last `m` elements agree and the ones before them (if both exist) differ. */
  lemma {:induction false} CommonSuffixSpec(a: seq<string>, b: seq<string>)
    ensures var m := CommonSuffixLength(a, b);
      && (forall i :: |a| - m <= i < |a| ==> a[i] == b[i - |a| + |b|])
      && (m == |a| || m == |b| || a[|a| - 1 - m] != b[|b| - 1 - m])
  {
    if a != [] && b != [] && a[|a| - 1] == b[|b| - 1] {
      CommonSuffixSpec(a[..|a| - 1], b[..|b| - 1]);
    }
  }

  /** One side is empty, or the two differ in both their first and their last element. */
  predicate EndsDiffer(x: seq<string>, y: seq<string>)
  {
    x == [] || y == [] || (x[0] != y[0] && x[|x| - 1] != y[|y| - 1])
  }

  /**
   * What `strip_common_fixes(a, b)` returns: `a` and `b` without their longest
   * common leading run and then without the longest common trailing run of
   * what is left.
   */
  function StripFixes(a: seq<string>, b: seq<string>): (seq<string>, seq<string>)
  {
    var k := CommonPrefixLength(a, b);
    var m := CommonSuffixLength(a[k..], b[k..]);
    (a[k..|a| - m], b[k..|b| - m])
  }

  /**
   * strip_common_fixes: copies both lists, then deletes equal first elements
   * while there are any, then equal last elements while there are any.
   */
  method StripCommonFixes(a: seq<string>, b: seq<string>) returns (x: seq<string>, y: seq<string>)
    ensures x == StripFixes(a, b).0 && y == StripFixes(a, b).1
  {
    x, y := a, b;
    ghost var k := 0;
    while |x| > 0 && |y| > 0 && x[0] == y[0]
      invariant k <= |a| && k <= |b| && x == a[k..] && y == b[k..]
      invariant k + CommonPrefixLength(x, y) == CommonPrefixLength(a, b)
      decreases |x|
    {
      x, y := x[1..], y[1..];
      k := k + 1;
    }
    ghost var x0, y0 := x, y;
    while |x| > 0 && |y| > 0 && x[|x| - 1] == y[|y| - 1]
      invariant |x| <= |x0| && |x0| - |x| == |y0| - |y|
      invariant x == x0[..|x|] && y == y0[..|y|]
      invariant |x0| - |x| + CommonSuffixLength(x, y) == CommonSuffixLength(x0, y0)
      decreases |x|
    {
      x, y := x[..|x| - 1], y[..|y| - 1];
    }
    StripFixesSplit(a, b, k);
  }

  /** The two halves of StripFixes: the prefix is cut first, then the suffix of what is left. */
  lemma StripFixesSplit(a: seq<string>, b: seq<string>, k: nat)
    requires k == CommonPrefixLength(a, b)
    ensures StripFixes(a, b).0 == a[k..][..|a| - k - CommonSuffixLength(a[k..], b[k..])]
    ensures StripFixes(a, b).1 == b[k..][..|b| - k - CommonSuffixLength(a[k..], b[k..])]
  {
    var m := CommonSuffixLength(a[k..], b[k..]);
    assert StripFixes(a, b).0 == a[k..|a| - m];
    assert StripFixes(a, b).1 == b[k..|b| - m];
  }

  /** The doctest of strip_common_fixes. */
  lemma StripFixesExample()
    ensures StripFixes(["of", "machine", "learning", "tasks"], ["of", "machine-learning", "tasks"])
         == (["machine", "learning"], ["machine-learning"])
  {
    var a: seq<string> := ["of", "machine", "learning", "tasks"];
    var b: seq<string> := ["of", "machine-learning", "tasks"];
    var a1: seq<string> := ["machine", "learning", "tasks"];
    var b1: seq<string> := ["machine-learning", "tasks"];
    var a2: seq<string> := ["machine", "learning"];
    var b2: seq<string> := ["machine-learning"];
    assert "machine" != "machine-learning" by { assert |"machine"| != |"machine-learning"|; }
    assert "learning" != "machine-learning" by { assert |"learning"| != |"machine-learning"|; }
    assert a[1..] == a1 && b[1..] == b1;
    assert CommonPrefixLength(a1, b1) == 0;
    assert CommonPrefixLength(a, b) == 1;
    assert a1[..|a1| - 1] == a2 && b1[..|b1| - 1] == b2;
    assert CommonSuffixLength(a2, b2) == 0;
    assert CommonSuffixLength(a1, b1) == 1;
    assert a[1..|a| - 1] == a2 && b[1..|b| - 1] == b2;
  }

  /** Stripping keeps one slice of each side, cut at the same offsets from both ends. */
  lemma StripFixesShape(a: seq<string>, b: seq<string>)
    ensures var r := StripFixes(a, b);
      var k := CommonPrefixLength(a, b);
      var m := |a| - k - |r.0|;
      && 0 <= m && k + m <= |a| && k + m <= |b|
      && r.0 == a[k..|a| - m] && r.1 == b[k..|b| - m]
  {
  }

  /** What stripping cuts off is common to both sides: the longest common prefix, then a common suffix. */
  lemma StripFixesCommon(a: seq<string>, b: seq<string>)
    ensures var r := StripFixes(a, b);
      var k := CommonPrefixLength(a, b);
      var m := |a| - k - |r.0|;
      && 0 <= m && k + m <= |a| && k + m <= |b|
      && (forall i :: 0 <= i < k ==> a[i] == b[i])
      && (forall i :: |a| - m <= i < |a| ==> a[i] == b[i - |a| + |b|])
  {
    CommonPrefixSpec(a, b);
    var k := CommonPrefixLength(a, b);
    StripFixesSuffix(a, b, k);
  }

  /**
   * The decomposition that stripping finds: `a == p + x + s` and `b == p + y + s`
   * for one common prefix `p` and one common suffix `s`.
   */
  lemma StripFixesParts(a: seq<string>, b: seq<string>)
    ensures var r := StripFixes(a, b);
      var k := CommonPrefixLength(a, b);
      var m := |a| - k - |r.0|;
      0 <= m <= |a| - k && a == a[..k] + r.0 + a[|a| - m..] && b == a[..k] + r.1 + a[|a| - m..]
  {
    var r := StripFixes(a, b);
    var k := CommonPrefixLength(a, b);
    var m := |a| - k - |r.0|;
    StripFixesShape(a, b);
    StripFixesCommon(a, b);
    Reassemble(a, b, k, m);
  }

  /** Two lists that agree on their first `k` and last `m` elements differ only in between. */
  lemma Reassemble<T>(a: seq<T>, b: seq<T>, k: nat, m: nat)
    requires k + m <= |a| && k + m <= |b|
    requires forall i :: 0 <= i < k ==> a[i] == b[i]
    requires forall i :: |a| - m <= i < |a| ==> a[i] == b[i - |a| + |b|]
    ensures a == a[..k] + a[k..|a| - m] + a[|a| - m..]
    ensures b == a[..k] + b[k..|b| - m] + a[|a| - m..]
  {
    assert b[..k] == a[..k];
    var sa, sb := a[|a| - m..], b[|b| - m..];
    forall i | 0 <= i < m ensures sb[i] == sa[i] {
      assert a[|a| - m + i] == b[|a| - m + i - |a| + |b|];
    }
    assert sb == sa;
    assert b == b[..k] + b[k..|b| - m] + b[|b| - m..];
  }

  lemma StripFixesSuffix(a: seq<string>, b: seq<string>, k: nat)
    requires k <= |a| && k <= |b|
    ensures var m := CommonSuffixLength(a[k..], b[k..]);
      forall i :: |a| - m <= i < |a| ==> a[i] == b[i - |a| + |b|]
  {
    var a', b' := a[k..], b[k..];
    var m := CommonSuffixLength(a', b');
    CommonSuffixSpec(a', b');
    forall i | |a| - m <= i < |a| ensures a[i] == b[i - |a| + |b|] {
      var j := i - k;
      var t := j - |a'| + |b'|;
      assert a'[j] == a[i];
      assert a'[j] == b'[t];
      assert b'[t] == b[k + t];
      assert k + t == i - |a| + |b|;
    }
  }

  /** After stripping, the two sides disagree at both ends (or one of them is empty). */
  lemma StripFixesEnds(a: seq<string>, b: seq<string>)
    ensures var r := StripFixes(a, b); EndsDiffer(r.0, r.1)
  {
    var k := CommonPrefixLength(a, b);
    var a', b' := a[k..], b[k..];
    var m := CommonSuffixLength(a', b');
    var (x, y) := StripFixes(a, b);
    CommonPrefixSpec(a, b);
    CommonSuffixSpec(a', b');
    if x != [] && y != [] {
      assert x[0] == a[k] && y[0] == b[k];
      assert x[|x| - 1] == a'[|a'| - 1 - m] && y[|y| - 1] == b'[|b'| - 1 - m];
    }
  }

  /** Nothing is stripped exactly when the two lists already disagree at both ends. */
  lemma StripFixesUnchanged(a: seq<string>, b: seq<string>)
    ensures StripFixes(a, b) == (a, b) <==> EndsDiffer(a, b)
  {
    StripFixesEnds(a, b);
    if EndsDiffer(a, b) {
      assert CommonPrefixLength(a, b) == 0;
      assert a[0..] == a && b[0..] == b;
      assert CommonSuffixLength(a, b) == 0;
      assert a[..|a|] == a && b[..|b|] == b;
    }
  }

  /** Stripping a second time changes nothing. */
  lemma StripFixesIdempotent(a: seq<string>, b: seq<string>)
    ensures var r := StripFixes(a, b); StripFixes(r.0, r.1) == r
  {
    var (x, y) := StripFixes(a, b);
    StripFixesEnds(a, b);
    StripFixesUnchanged(x, y);
  }

  /** Two equal lists strip to nothing. */
  lemma StripFixesSame(a: seq<string>)
    ensures StripFixes(a, a) == ([], [])
  {
    PrefixOfItself(a);
    var e := a[|a|..];
    assert e == [];
    assert CommonSuffixLength(e, e) == 0;
    assert a[|a|..|a| - 0] == [];
  }

  lemma {:induction false} PrefixOfItself(a: seq<string>)
    ensures CommonPrefixLength(a, a) == |a|
  {
    if a != [] {
      PrefixOfItself(a[1..]);
    }
  }

  // ===========================================================================
  // lower_case
  // ===========================================================================

  /**
   * lower_case: a string that splits into exactly one word gets its first
   * character lower-cased; every other string is returned as it is.
   */
  function LowerCase(x: string): (r: string)
    ensures |r| == |x|
  {
    if |Words(x)| == 1 then [LowerChar(x[0])] + x[1..] else x
  }

  /** `LowerCase` changes `x` exactly when `x` is one word that starts with a capital. */
  lemma LowerCaseFixed(x: string)
    ensures LowerCase(x) == x <==> |Words(x)| != 1 || !IsUpper(x[0])
  {
    if |Words(x)| == 1 && IsUpper(x[0]) {
      assert LowerCase(x)[0] != x[0];
    } else if |Words(x)| == 1 {
      assert [x[0]] + x[1..] == x;
    }
  }

  /** `LowerCase` keeps the words of `x`, lower-casing only the first character of a lone word. */
  lemma LowerCaseWords(x: string)
    ensures |Words(LowerCase(x))| == |Words(x)|
  {
    if |Words(x)| == 1 && !IsSpace(x[0]) {
      WordsReplaceFirst(x, LowerChar(x[0]));
    } else if |Words(x)| == 1 {
      LowerCaseFixed(x);
    }
  }

  /** A second `LowerCase` changes nothing. */
  lemma LowerCaseIdempotent(x: string)
    ensures LowerCase(LowerCase(x)) == LowerCase(x)
  {
    LowerCaseWords(x);
    LowerCaseFixed(x);
    LowerCaseFixed(LowerCase(x));
  }

  /** The doctests of lower_case: a lone capitalized word loses its capital... */
  lemma LowerCaseExampleWord(x: string)
    requires x == "Apple"
    ensures LowerCase(x) == "apple"
  {
    assert IsWord(x);
    WordsOfWord(x);
    assert [LowerChar(x[0])] + x[1..] == "apple";
  }

  /** ...and a phrase is left alone. */
  lemma LowerCaseExamplePhrase(x: string)
    requires x == "Batch Gradient"
    ensures LowerCase(x) == x
  {
    var ws: seq<string> := ["Batch", "Gradient"];
    assert IsWord(ws[0]) && IsWord(ws[1]);
    WordsJoin(ws);
    assert Join(ws, " ") == x by {
      assert ws[1..] == ["Gradient"];
      assert "Batch" + " " + "Gradient" == x;
    }
  }

  // ===========================================================================
  // Canonical keys and surface forms of a window
  // ===========================================================================

  /** The characters `strip(",. ")` removes. */
  const Edge: set<char> := {',', '.', ' '}

  /** The longest window, from `range(1, 10)`. */
  const MaxGram: nat := 9

  /** `"".join(t.lower() for t in ngram).strip(",. ").replace("-", "")`. */
  function Key(ngram: seq<string>): string
  {
    Delete(Strip(Join(LowerEach(ngram), ""), Edge), '-')
  }

  /** `" ".join(ngram).strip(",. ")`. */
  function Surface(ngram: seq<string>): string
  {
    Strip(Join(ngram, " "), Edge)
  }

  /** A surface form is a slice of the space-joined window with no `,`, `.` or space at either end. */
  lemma SurfaceShape(ngram: seq<string>)
    ensures var r := Surface(ngram);
      && (r == [] || (r[0] !in Edge && r[|r| - 1] !in Edge))
      && exists i, j :: 0 <= i <= j <= |Join(ngram, " ")| && r == Join(ngram, " ")[i..j]
  {
    StripShape(Join(ngram, " "), Edge);
  }

  /**
   * A window of words that neither starts nor ends with `,` or `.` is its own
   * surface form joined by spaces, and `split()` gives the window back.
   */
  lemma SurfaceOfWords(ngram: seq<string>)
    requires ngram != [] && forall i :: 0 <= i < |ngram| ==> IsWord(ngram[i])
    requires var f, l := ngram[0], ngram[|ngram| - 1]; f != [] && l != [] && f[0] !in Edge && l[|l| - 1] !in Edge
    ensures Surface(ngram) == Join(ngram, " ")
    ensures Words(Surface(ngram)) == ngram
  {
    assert IsWord(ngram[0]) && IsWord(ngram[|ngram| - 1]);
    JoinFirst(ngram, " ");
    JoinLast(ngram, " ");
    StripNothing(Join(ngram, " "), Edge);
    WordsJoin(ngram);
  }

  /** The key of the lower-cased concatenation `s`, without leading or trailing `,. `, without hyphens. */
  function Canon(s: string): string
  {
    Delete(Strip(Lower(s), Edge), '-')
  }

  /** A key depends on the tokens only through their concatenation. */
  lemma KeyIsCanon(ngram: seq<string>)
    ensures Key(ngram) == Canon(Join(ngram, ""))
  {
    LowerJoin(ngram);
  }

  /** A key holds no hyphen and no capital letter. */
  lemma KeyChars(ngram: seq<string>)
    ensures forall i :: 0 <= i < |Key(ngram)| ==> Key(ngram)[i] != '-' && !IsUpper(Key(ngram)[i])
  {
    KeyIsCanon(ngram);
    CanonChars(Join(ngram, ""));
  }

  lemma CanonChars(s: string)
    ensures forall i :: 0 <= i < |Canon(s)| ==> Canon(s)[i] != '-' && !IsUpper(Canon(s)[i])
  {
    var l := Lower(s);
    var t := Strip(l, Edge);
    LowerNoUpper(s);
    StripMembers(l, Edge);
    DeleteSpec(t, '-');
    var r := Delete(t, '-');
    forall i | 0 <= i < |r| ensures r[i] != '-' && !IsUpper(r[i]) {
      assert r[i] in r;
    }
  }

  /** Without hyphens in the window, a key neither starts nor ends with `,`, `.` or a space. */
  lemma KeyEnds(ngram: seq<string>)
    requires '-' !in Join(ngram, "")
    ensures var r := Key(ngram); r == [] || (r[0] !in Edge && r[|r| - 1] !in Edge)
  {
    KeyIsCanon(ngram);
    CanonEnds(Join(ngram, ""));
  }

  lemma CanonEnds(s: string)
    requires '-' !in s
    ensures var r := Canon(s); r == [] || (r[0] !in Edge && r[|r| - 1] !in Edge)
  {
    var l := Lower(s);
    forall i | 0 <= i < |l| ensures l[i] != '-' {
      assert s[i] in s;
    }
    var t := Strip(l, Edge);
    StripShape(l, Edge);
    var p, q :| 0 <= p <= q <= |l| && t == l[p..q];
    forall j | 0 <= j < |t| ensures t[j] != '-' {
      assert t[j] == l[p + j];
    }
    DeleteSpec(t, '-');
  }

  /** The hyphen guard of KeyEnds is needed: stripping comes before the hyphens are removed. */
  lemma KeyEndsNeedsNoHyphen()
    ensures Key(["a,-"]) == "a,"
  {
    assert Join(LowerEach(["a,-"]), "") == "a,-";
    assert Strip("a,-", Edge) == "a,-";
  }

  /** Windows whose tokens agree up to case get the same key. */
  lemma KeyIgnoresCase(ts: seq<string>, us: seq<string>)
    requires |ts| == |us|
    requires forall i :: 0 <= i < |ts| ==> Lower(ts[i]) == Lower(us[i])
    ensures Key(ts) == Key(us)
  {
    assert LowerEach(ts) == LowerEach(us);
  }

  /** Windows whose tokens concatenate to the same text get the same key, however it is split. */
  lemma KeyIgnoresBoundaries(ts: seq<string>, us: seq<string>)
    requires Join(ts, "") == Join(us, "")
    ensures Key(ts) == Key(us)
  {
    KeyIsCanon(ts);
    KeyIsCanon(us);
  }

  /** Windows whose concatenations agree up to case have the same key, whatever their case and boundaries. */
  lemma KeyIgnoresCaseAndBoundaries(ts: seq<string>, us: seq<string>)
    requires Lower(Join(ts, "")) == Lower(Join(us, ""))
    ensures Key(ts) == Key(us)
  {
    KeyIsCanon(ts);
    KeyIsCanon(us);
  }

  /** Lower-casing keeps every character that stripping `Edge` keeps. */
  lemma HasKeptLower(s: string)
    requires HasKept(s, Edge)
    ensures HasKept(Lower(s), Edge)
  {
    var i :| 0 <= i < |s| && s[i] !in Edge;
    assert Lower(s)[i] !in Edge;
  }

  /** The canonical form of `u + m + v`, when `u` and `v` each keep something, strips only the outer ends. */
  lemma CanonAround(u: string, m: string, v: string)
    requires HasKept(u, Edge) && HasKept(v, Edge)
    ensures Canon(u + m + v) == Delete(TrimLeft(Lower(u), Edge) + Lower(m) + TrimRight(Lower(v), Edge), '-')
  {
    LowerAppend(u + m, v);
    LowerAppend(u, m);
    HasKeptLower(u);
    HasKeptLower(v);
    StripAround(Lower(u), Lower(m), Lower(v), Edge);
  }

  /** A hyphen between two parts that both keep something after stripping does not change the key. */
  lemma CanonIgnoresHyphen(u: string, v: string)
    requires HasKept(u, Edge) && HasKept(v, Edge)
    ensures Canon(u + "-" + v) == Canon(u + v)
  {
    var tl, tr := TrimLeft(Lower(u), Edge), TrimRight(Lower(v), Edge);
    calc {
      Canon(u + "-" + v);
      { CanonAround(u, "-", v); LowerIs("-", "-"); }
      Delete(tl + "-" + tr, '-');
      { DeleteHyphen(tl, tr); }
      Delete(tl + "" + tr, '-');
      { CanonAround(u, "", v); assert Lower("") == ""; }
      Canon(u + "" + v);
      { assert u + "" + v == u + v; }
      Canon(u + v);
    }
  }

  lemma DeleteHyphen(x: string, y: string)
    ensures Delete(x + "-" + y, '-') == Delete(x + "" + y, '-')
  {
    DeleteAppend(x + "-", y, '-');
    DeleteAppend(x, "-", '-');
    assert Delete("-", '-') == "";
    assert x + "" + y == x + y;
    DeleteAppend(x, y, '-');
  }

  /** Example keys: capitals do not matter... */
  lemma KeyExampleCapitals(a: string, b: string)
    requires a == "Gradient" && b == "Descent"
    ensures Key([a, b]) == "gradientdescent"
  {
    KeyOfWords(a, b, "gradient", "descent");
    assert "gradient" + "descent" == "gradientdescent";
  }

  /** ...and neither does a hyphen that joins the words into one token. */
  lemma KeyExampleHyphen(t: string, a: string, b: string)
    requires t == "Gradient-Descent" && a == "Gradient" && b == "Descent"
    ensures Key([t]) == Key([a, b])
  {
    assert t == a + "-" + b;
    assert HasKept(a, Edge) && HasKept(b, Edge) by {
      assert a[0] !in Edge && b[0] !in Edge;
    }
    KeyHyphenated(a, b);
  }

  /** One hyphenated token has the key of its two halves as separate tokens. */
  lemma KeyHyphenated(a: string, b: string)
    requires HasKept(a, Edge) && HasKept(b, Edge)
    ensures Key([a + "-" + b]) == Key([a, b])
  {
    KeyIsCanon([a + "-" + b]);
    KeyIsCanon([a, b]);
    assert Join([a, b], "") == a + b by {
      assert [a, b][1..] == [b];
      assert a + "" + b == a + b;
    }
    CanonIgnoresHyphen(a, b);
  }

  /** The condition of KeyHyphenated is needed: `",- x"` keys to `" x"`, while `","` and `" x"` key to `"x"`. */
  lemma KeyHyphenatedNeedsKept(a: string, b: string)
    requires a == "," && b == " x"
    ensures Key([a + "-" + b]) == " x" && Key([a, b]) == "x"
  {
    KeyOfCommaHyphen(a + "-" + b);
    KeyOfCommaSpace(a, b);
  }

  lemma KeyOfCommaHyphen(t: string)
    requires t == ",- x"
    ensures Key([t]) == " x"
  {
    LowerIs(t, t);
    assert Join(LowerEach([t]), "") == t;
    assert TrimLeft(t, Edge) == "- x" by { assert t[1..] == "- x"; }
    assert Strip(t, Edge) == "- x";
    assert Delete("- x", '-') == " x" by { assert "- x"[1..] == " x"; }
  }

  lemma KeyOfCommaSpace(a: string, b: string)
    requires a == "," && b == " x"
    ensures Key([a, b]) == "x"
  {
    var s := a + b;
    assert s == ", x";
    assert Join(LowerEach([a, b]), "") == s by {
      LowerIs(a, a);
      LowerIs(b, b);
      assert LowerEach([a, b]) == [a, b];
      JoinTwo(a, b, "");
      assert a + "" + b == s;
    }
    var s1, s2 := s[1..], s[2..];
    assert s1 == " x" && s2 == "x" && s1[1..] == s2;
    assert TrimLeft(s2, Edge) == s2;
    assert TrimLeft(s1, Edge) == s2;
    assert TrimLeft(s, Edge) == s2;
    assert Strip(s, Edge) == s2;
    assert Delete(s2, '-') == s2 by { assert s2[1..] == []; }
    assert Key([a, b]) == Delete(Strip(s, Edge), '-');
  }

  /** The key of a two-token window whose lower-cased tokens are plain letters. */
  lemma KeyOfWords(a: string, b: string, la: string, lb: string)
    requires la != [] && lb != []
    requires |a| == |la| && forall i :: 0 <= i < |a| ==> LowerChar(a[i]) == la[i]
    requires |b| == |lb| && forall i :: 0 <= i < |b| ==> LowerChar(b[i]) == lb[i]
    requires forall i :: 0 <= i < |la| ==> 'a' <= la[i] <= 'z'
    requires forall i :: 0 <= i < |lb| ==> 'a' <= lb[i] <= 'z'
    ensures Key([a, b]) == la + lb
  {
    var s := la + lb;
    JoinLowered(a, b, la, lb);
    assert s[0] == la[0] && s[|s| - 1] == lb[|lb| - 1];
    assert Strip(s, Edge) == s by {
      StripNothing(s, Edge);
    }
    assert Delete(s, '-') == s by {
      LettersOnly(la, lb);
      DeleteSpec(s, '-');
    }
  }

  lemma JoinLowered(a: string, b: string, la: string, lb: string)
    requires |a| == |la| && forall i :: 0 <= i < |a| ==> LowerChar(a[i]) == la[i]
    requires |b| == |lb| && forall i :: 0 <= i < |b| ==> LowerChar(b[i]) == lb[i]
    ensures Join(LowerEach([a, b]), "") == la + lb
  {
    LowerIs(a, la);
    LowerIs(b, lb);
    assert LowerEach([a, b]) == [la, lb];
    JoinTwo(la, lb, "");
    assert la + "" + lb == la + lb;
  }

  lemma LettersOnly(la: string, lb: string)
    requires forall i :: 0 <= i < |la| ==> 'a' <= la[i] <= 'z'
    requires forall i :: 0 <= i < |lb| ==> 'a' <= lb[i] <= 'z'
    ensures '-' !in la + lb
  {
    var s := la + lb;
    forall i | 0 <= i < |s| ensures s[i] != '-' {
      if i < |la| { assert s[i] == la[i]; } else { assert s[i] == lb[i - |la|]; }
    }
  }

  // ===========================================================================
  // Phase 1: windows and groups
  // ===========================================================================

  /** The window of `n` tokens that starts at position `i`. */
  function Gram(tokens: seq<string>, i: nat, n: nat): seq<string>
    requires i + n <= |tokens|
  {
    tokens[i..i + n]
  }

  /**
   * `ingrams(tokens, n)`: the window of the first `n` tokens, then the windows
   * of the list shifted by one; none once fewer than `n` tokens are left.
   */
  function NGrams(tokens: seq<string>, n: nat): (ws: seq<seq<string>>)
    ensures |ws| == if n <= |tokens| then |tokens| - n + 1 else 0
    decreases |tokens|
  {
    if n > |tokens| then []
    else [Gram(tokens, 0, n)] + (if n == |tokens| then [] else NGrams(tokens[1..], n))
  }

  /** The `i`-th window of `NGrams(tokens, n)` starts at token `i`. */
  lemma {:induction false} NGramsSpec(tokens: seq<string>, n: nat)
    ensures forall i: nat :: i < |NGrams(tokens, n)| ==> NGrams(tokens, n)[i] == Gram(tokens, i, n)
    decreases |tokens|
  {
    if n < |tokens| {
      NGramsSpec(tokens[1..], n);
      forall i: nat | i < |NGrams(tokens, n)| ensures NGrams(tokens, n)[i] == Gram(tokens, i, n) {
        if i > 0 {
          NGramsShift(tokens, n, i);
        }
      }
    }
  }

  /** Past the first window, `NGrams` is the windows of the list shifted by one. */
  lemma NGramsShift(tokens: seq<string>, n: nat, i: nat)
    requires n < |tokens| && 1 <= i <= |tokens| - n
    ensures NGrams(tokens, n)[i] == NGrams(tokens[1..], n)[i - 1]
    ensures Gram(tokens[1..], i - 1, n) == Gram(tokens, i, n)
  {
    assert NGrams(tokens, n) == [Gram(tokens, 0, n)] + NGrams(tokens[1..], n);
    assert tokens[1..][i - 1..i - 1 + n] == tokens[i..i + n];
  }

  /** The windows of lengths 1 to `n - 1`, in the order phase 1 visits them. */
  function WindowsBelow(tokens: seq<string>, n: nat): seq<seq<string>>
  {
    if n <= 1 then [] else WindowsBelow(tokens, n - 1) + NGrams(tokens, n - 1)
  }

  /** Every window that phase 1 visits. */
  function Windows(tokens: seq<string>): seq<seq<string>>
  {
    WindowsBelow(tokens, MaxGram + 1)
  }

  /** The list of windows holds exactly the full-length runs of 1 to `n - 1` tokens. */
  lemma {:induction false} WindowsBelowSpec(tokens: seq<string>, n: nat)
    ensures forall w :: w in WindowsBelow(tokens, n) <==>
      exists l: nat, i: nat :: 1 <= l < n && i + l <= |tokens| && w == Gram(tokens, i, l)
  {
    if n > 1 {
      WindowsBelowSpec(tokens, n - 1);
      var g := NGrams(tokens, n - 1);
      var l := n - 1;
      NGramsSpec(tokens, l);
      forall w ensures w in g <==> exists i: nat :: i + l <= |tokens| && w == Gram(tokens, i, l) {
        if w in g {
          var i :| 0 <= i < |g| && g[i] == w;
        }
        if exists i: nat :: i + l <= |tokens| && w == Gram(tokens, i, l) {
          var i: nat :| i + l <= |tokens| && w == Gram(tokens, i, l);
          assert g[i] == w;
        }
      }
    }
  }

  /** Per canonical key, its distinct surface forms in the order they were first added. */
  type Groups = map<string, seq<string>>

  predicate NoDup(s: seq<string>)
  {
    forall i, j :: 0 <= i < j < |s| ==> s[i] != s[j]
  }

  /** Every group is a non-empty set of forms, each held once. */
  predicate WellFormed(g: Groups)
  {
    forall k :: k in g ==> g[k] != [] && NoDup(g[k])
  }

  /** `mappings[key].add(form)` on a `defaultdict(set)`. */
  function Add(g: Groups, key: string, form: string): Groups
  {
    if key !in g then g[key := [form]]
    else if form in g[key] then g
    else g[key := g[key] + [form]]
  }

  /** `Add` puts `form` in the group of `key`, creating it if need be, and touches nothing else. */
  lemma AddSpec(g: Groups, key: string, form: string)
    ensures var r := Add(g, key, form);
      && r.Keys == g.Keys + {key}
      && (forall k :: k in g && k != key ==> r[k] == g[k])
      && (forall f :: f in r[key] <==> f == form || (key in g && f in g[key]))
      && (WellFormed(g) ==> WellFormed(r))
  {
  }

  /** The two-step `defaultdict` insertion of phase 1 computes `Add`. */
  lemma AddStep(g: Groups, key: string, form: string, r: Groups)
    requires r == (var d := if key in g then g else g[key := []];
                   if form in d[key] then d else d[key := d[key] + [form]])
    ensures r == Add(g, key, form)
  {
    if key !in g {
      assert [] + [form] == [form];
      assert g[key := []][key := [form]] == g[key := [form]];
    }
  }

  /** What phase 1 enters for one window: its key and its surface form. */
  function Entry(w: seq<string>): (string, string)
  {
    (Key(w), Surface(w))
  }

  /** The entries of a list of windows, in order. */
  function Entries(ws: seq<seq<string>>): (es: seq<(string, string)>)
    ensures |es| == |ws|
    ensures forall i :: 0 <= i < |ws| ==> es[i] == Entry(ws[i])
  {
    seq(|ws|, i requires 0 <= i < |ws| => Entry(ws[i]))
  }

  /** The entries of two lists of windows in a row are the entries of each, in a row. */
  lemma EntriesAppend(u: seq<seq<string>>, v: seq<seq<string>>)
    ensures Entries(u + v) == Entries(u) + Entries(v)
  {
    var l, r := Entries(u + v), Entries(u) + Entries(v);
    forall i | 0 <= i < |l| ensures l[i] == r[i] {
      if i < |u| { assert (u + v)[i] == u[i]; } else { assert (u + v)[i] == v[i - |u|]; }
    }
  }

  lemma EntriesSnoc(ws: seq<seq<string>>, w: seq<string>)
    ensures Entries(ws + [w]) == Entries(ws) + [Entry(w)]
  {
    var l, r := Entries(ws + [w]), Entries(ws) + [Entry(w)];
    forall i | 0 <= i < |l| ensures l[i] == r[i] {
      if i < |ws| { assert (ws + [w])[i] == ws[i]; }
    }
  }

  /** The groups built from a list of (key, form) entries, taken in order. */
  function Collect(es: seq<(string, string)>): Groups
  {
    if es == [] then map[]
    else
      var e := es[|es| - 1];
      Add(Collect(es[..|es| - 1]), e.0, e.1)
  }

  lemma CollectSnoc(es: seq<(string, string)>, e: (string, string))
    ensures Collect(es + [e]) == Add(Collect(es), e.0, e.1)
  {
    assert (es + [e])[..|es|] == es;
  }

  /** Every group that collecting builds is non-empty and holds each form once. */
  lemma {:induction false} CollectWellFormed(es: seq<(string, string)>)
    ensures WellFormed(Collect(es))
  {
    if es != [] {
      var init, last := es[..|es| - 1], es[|es| - 1];
      CollectWellFormed(init);
      AddSpec(Collect(init), last.0, last.1);
    }
  }

  /** Collecting creates a group for the key of every entry and for nothing else. */
  lemma {:induction false} CollectKeys(es: seq<(string, string)>)
    ensures forall k :: k in Collect(es) <==> exists i :: 0 <= i < |es| && es[i].0 == k
  {
    if es != [] {
      var init, last := es[..|es| - 1], es[|es| - 1];
      CollectKeys(init);
      AddSpec(Collect(init), last.0, last.1);
      assert forall i :: 0 <= i < |init| ==> init[i] == es[i];
    }
  }

  /** Collecting puts the form of every entry, and no other, in the group of its key. */
  lemma {:induction false} CollectForms(es: seq<(string, string)>)
    ensures forall k, f :: k in Collect(es) ==>
      (f in Collect(es)[k] <==> exists i :: 0 <= i < |es| && es[i] == (k, f))
  {
    if es != [] {
      var init, last := es[..|es| - 1], es[|es| - 1];
      CollectForms(init);
      AddSpec(Collect(init), last.0, last.1);
      assert forall i :: 0 <= i < |init| ==> init[i] == es[i];
      forall k, f | k in Collect(es)
        ensures f in Collect(es)[k] <==> exists i :: 0 <= i < |es| && es[i] == (k, f)
      {
        if i :| 0 <= i < |es| && es[i] == (k, f) {
          if i < |init| {
            assert k in Collect(init) by { CollectKeys(init); }
          }
        }
      }
    }
  }

  /**
   * Collecting enters every entry's form under its key and nothing else, each
   * form once.
   */
  lemma CollectSpec(es: seq<(string, string)>)
    ensures WellFormed(Collect(es))
    ensures forall k :: k in Collect(es) <==> exists i :: 0 <= i < |es| && es[i].0 == k
    ensures forall k, f :: k in Collect(es) ==>
      (f in Collect(es)[k] <==> exists i :: 0 <= i < |es| && es[i] == (k, f))
  {
    CollectWellFormed(es);
    CollectKeys(es);
    CollectForms(es);
  }

  /** One turn of the inner loop of phase 1 keeps the groups equal to `Collect` of the entries so far. */
  lemma InsertStep(before: seq<seq<string>>, grams: seq<seq<string>>, i: nat, g: Groups, r: Groups)
    requires i < |grams| && g == Collect(Entries(before + grams[..i]))
    requires r == (var key, form := Key(grams[i]), Surface(grams[i]);
                   var d := if key in g then g else g[key := []];
                   if form in d[key] then d else d[key := d[key] + [form]])
    ensures r == Collect(Entries(before + grams[..i + 1]))
  {
    var es := Entries(before + grams[..i]);
    AddStep(g, Key(grams[i]), Surface(grams[i]), r);
    CollectSnoc(es, Entry(grams[i]));
    EntriesNext(before, grams, i);
  }

  lemma EntriesNext(before: seq<seq<string>>, grams: seq<seq<string>>, i: nat)
    requires i < |grams|
    ensures Entries(before + grams[..i]) + [Entry(grams[i])] == Entries(before + grams[..i + 1])
  {
    EntriesSnoc(before + grams[..i], grams[i]);
    assert grams[..i + 1] == grams[..i] + [grams[i]];
    assert before + grams[..i] + [grams[i]] == before + grams[..i + 1];
  }

  /** The groups of phase 1 over a token list. */
  function Groups1(tokens: seq<string>): Groups
  {
    Collect(Entries(Windows(tokens)))
  }

  /** One pass of phase 1: enters every window of `grams`, in order. */
  method AddAll(mappings0: Groups, ghost before: seq<seq<string>>, grams: seq<seq<string>>) returns (mappings: Groups)
    requires mappings0 == Collect(Entries(before))
    ensures mappings == Collect(Entries(before + grams))
  {
    mappings := mappings0;
    assert before + grams[..0] == before;
    for i := 0 to |grams|
      invariant mappings == Collect(Entries(before + grams[..i]))
    {
      var ngram := grams[i];
      var norm := Key(ngram);
      var source := Surface(ngram);
      ghost var old_mappings := mappings;
      if norm !in mappings {
        mappings := mappings[norm := []];
      }
      if source !in mappings[norm] {
        mappings := mappings[norm := mappings[norm] + [source]];
      }
      InsertStep(before, grams, i, old_mappings, mappings);
    }
    assert grams[..|grams|] == grams;
  }

  /** Phase 1 of consistency. */
  method BuildGroups(tokens: seq<string>) returns (mappings: Groups)
    ensures mappings == Groups1(tokens)
  {
    mappings := map[];
    for n := 1 to MaxGram + 1
      invariant mappings == Collect(Entries(WindowsBelow(tokens, n)))
    {
      mappings := AddAll(mappings, WindowsBelow(tokens, n), NGrams(tokens, n));
    }
  }

  /**
   * Coverage of phase 1: every full window of 1 to 9 tokens has its surface
   * form in the group of its key; no other form is entered; no form twice.
   */
  lemma Groups1Spec(tokens: seq<string>)
    ensures WellFormed(Groups1(tokens))
    ensures forall n: nat, i: nat :: 1 <= n <= MaxGram && i + n <= |tokens| ==>
      Key(Gram(tokens, i, n)) in Groups1(tokens)
      && Surface(Gram(tokens, i, n)) in Groups1(tokens)[Key(Gram(tokens, i, n))]
    ensures forall k, f :: k in Groups1(tokens) && f in Groups1(tokens)[k] ==>
      (exists n: nat, i: nat ::
         1 <= n <= MaxGram && i + n <= |tokens| && Key(Gram(tokens, i, n)) == k && Surface(Gram(tokens, i, n)) == f)
  {
    var ws := Windows(tokens);
    var es := Entries(ws);
    WindowsBelowSpec(tokens, MaxGram + 1);
    CollectSpec(es);
    forall n: nat, i: nat | 1 <= n <= MaxGram && i + n <= |tokens|
      ensures Key(Gram(tokens, i, n)) in Groups1(tokens)
      ensures Surface(Gram(tokens, i, n)) in Groups1(tokens)[Key(Gram(tokens, i, n))]
    {
      var w := Gram(tokens, i, n);
      assert w in ws;
      var j :| 0 <= j < |ws| && ws[j] == w;
      assert es[j] == (Key(w), Surface(w));
    }
    forall k, f | k in Groups1(tokens) && f in Groups1(tokens)[k]
      ensures exists n: nat, i: nat ::
        1 <= n <= MaxGram && i + n <= |tokens| && Key(Gram(tokens, i, n)) == k && Surface(Gram(tokens, i, n)) == f
    {
      var j :| 0 <= j < |es| && es[j] == (k, f);
      var w := ws[j];
      assert w in ws;
      var n: nat, i: nat :| 1 <= n < MaxGram + 1 && i + n <= |tokens| && w == Gram(tokens, i, n);
    }
  }

  // ===========================================================================
  // Phase 2: redundancy filter
  // ===========================================================================

  /**
   * The test applied to each consecutive pair: after `LowerCase`, `split`,
   * `StripFixes` and a rejoin with spaces, both forms come back unchanged.
   */
  predicate PairStable(a: string, b: string)
  {
    var r := StripFixes(Words(LowerCase(a)), Words(LowerCase(b)));
    Join(r.0, " ") == a && Join(r.1, " ") == b
  }

  /** A group of forms that phase 2 keeps: two or more, every consecutive pair stable. */
  predicate Kept(forms: seq<string>)
  {
    |forms| > 1 && forall i :: 0 <= i < |forms| - 1 ==> PairStable(forms[i], forms[i + 1])
  }

  /** Phase 2 as a function: the groups it keeps, unchanged. */
  function Prune(g: Groups): Groups
  {
    map k | k in g && Kept(g[k]) :: g[k]
  }

  /** The inner loop of phase 2: whether the group with these forms is deleted. */
  method Redundant(values: seq<string>) returns (drop: bool)
    ensures drop == !Kept(values)
  {
    if |values| > 1 {
      drop := false;
      var i := 0;
      while i < |values| - 1
        invariant 0 <= i <= |values| - 1
        invariant !drop
        invariant forall j :: 0 <= j < i ==> PairStable(values[j], values[j + 1])
      {
        var a, b := values[i], values[i + 1];
        var xs, ys := StripCommonFixes(Words(LowerCase(a)), Words(LowerCase(b)));
        var x, y := Join(xs, " "), Join(ys, " ");
        if (x, y) != (a, b) {
          drop := true;
          break;
        }
        i := i + 1;
      }
    } else {
      drop := true;
    }
  }

  /** Phase 2 of consistency: deletes, key by key, the groups that are redundant. */
  method PruneGroups(groups: Groups) returns (mappings: Groups)
    ensures mappings == Prune(groups)
  {
    mappings := groups;
    var pending := groups.Keys;
    while pending != {}
      invariant pending <= groups.Keys
      invariant mappings.Keys <= groups.Keys
      invariant forall k :: k in mappings ==> mappings[k] == groups[k]
      invariant forall k :: k in groups ==> (k in mappings <==> k in pending || Kept(groups[k]))
      decreases pending
    {
      var key :| key in pending;
      var drop := Redundant(mappings[key]);
      if drop {
        mappings := mappings - {key};
      }
      pending := pending - {key};
    }
  }

  /** Filtering only deletes keys: what it keeps is unchanged and has at least two distinct forms. */
  lemma PruneSpec(g: Groups)
    requires WellFormed(g)
    ensures Prune(g).Keys <= g.Keys
    ensures forall k :: k in Prune(g) ==> Prune(g)[k] == g[k]
    ensures forall k :: k in Prune(g) ==> |Prune(g)[k]| >= 2 && NoDup(Prune(g)[k])
    ensures forall k :: k in g ==> (k in Prune(g) <==> Kept(g[k]))
  {
  }

  /** Filtering twice is filtering once. */
  lemma PruneIdempotent(g: Groups)
    ensures Prune(Prune(g)) == Prune(g)
  {
  }

  // ===========================================================================
  // What the pair test accepts
  // ===========================================================================

  /**
   * A consecutive pair is stable exactly when neither form is a capitalized lone
   * word, both are single-space joins of their words, and their word lists
   * share neither the first nor the last word.
   */
  lemma PairStableIff(a: string, b: string)
    ensures PairStable(a, b) <==>
      && LowerCase(a) == a && LowerCase(b) == b
      && Join(Words(a), " ") == a && Join(Words(b), " ") == b
      && EndsDiffer(Words(a), Words(b))
  {
    if PairStable(a, b) {
      PairStableOnlyIf(a, b);
    }
    if && LowerCase(a) == a && LowerCase(b) == b
       && Join(Words(a), " ") == a && Join(Words(b), " ") == b
       && EndsDiffer(Words(a), Words(b))
    {
      StripFixesUnchanged(Words(a), Words(b));
    }
  }

  /** The forward half of PairStableIff. */
  lemma PairStableOnlyIf(a: string, b: string)
    requires PairStable(a, b)
    ensures LowerCase(a) == a && LowerCase(b) == b
    ensures Join(Words(a), " ") == a && Join(Words(b), " ") == b
    ensures EndsDiffer(Words(a), Words(b))
  {
    StableFirst(a, b);
    StableSecond(a, b);
    StableEnds(a, b);
  }

  lemma StableFirst(a: string, b: string)
    requires PairStable(a, b)
    ensures LowerCase(a) == a && Words(a) == Words(LowerCase(a)) && Join(Words(a), " ") == a
    ensures StripFixes(Words(LowerCase(a)), Words(LowerCase(b))).0 == Words(LowerCase(a))
  {
    var wa, wb := Words(LowerCase(a)), Words(LowerCase(b));
    var r := StripFixes(wa, wb);
    StripFixesShape(wa, wb);
    var k := CommonPrefixLength(wa, wb);
    StableSide(a, wa, r.0, k, k + |r.0|);
  }

  lemma StableSecond(a: string, b: string)
    requires PairStable(a, b)
    ensures LowerCase(b) == b && Words(b) == Words(LowerCase(b)) && Join(Words(b), " ") == b
    ensures StripFixes(Words(LowerCase(a)), Words(LowerCase(b))).1 == Words(LowerCase(b))
  {
    var wa, wb := Words(LowerCase(a)), Words(LowerCase(b));
    var r := StripFixes(wa, wb);
    StripFixesShape(wa, wb);
    var k := CommonPrefixLength(wa, wb);
    StableSide(b, wb, r.1, k, k + |r.1|);
  }

  lemma StableEnds(a: string, b: string)
    requires PairStable(a, b)
    ensures EndsDiffer(Words(LowerCase(a)), Words(LowerCase(b)))
  {
    var wa, wb := Words(LowerCase(a)), Words(LowerCase(b));
    StableFirst(a, b);
    StableSecond(a, b);
    assert StripFixes(wa, wb) == (wa, wb);
    StripFixesUnchanged(wa, wb);
  }

  /**
   * One side of PairStableIff: a slice of the words of `LowerCase(a)` whose
   * single-space join is `a` is all of them, and `LowerCase` leaves `a` alone.
   */
  lemma StableSide(a: string, w: seq<string>, x: seq<string>, k: nat, m: nat)
    requires w == Words(LowerCase(a))
    requires k <= m <= |w| && x == w[k..m]
    requires Join(x, " ") == a
    ensures LowerCase(a) == a && x == w && Words(a) == w
  {
    assert forall i :: 0 <= i < |x| ==> x[i] == w[k + i];
    WordsJoin(x);
    LowerCaseWords(a);
    assert |x| == |w|;
    assert x == w;
    if |Words(a)| == 1 && !IsSpace(a[0]) {
      WordsReplaceFirst(a, LowerChar(a[0]));
      assert w[0][0] == LowerChar(a[0]);
      assert x[0][0] == a[0];
    }
    LowerCaseFixed(a);
  }

  /**
   * Forms that differ but agree after `LowerCase` never make a stable pair: a
   * group such as ["Hadoop", "hadoop"] is deleted.
   */
  lemma CaseOnlyPairUnstable(a: string, b: string)
    requires a != b && LowerCase(a) == LowerCase(b)
    ensures !PairStable(a, b)
    ensures !Kept([a, b])
  {
    PairStableIff(a, b);
    assert [a, b][0] == a && [a, b][1] == b;
  }

  /**
   * Two lone words that differ only in first-letter case, `Hadoop` and `hadoop`:
   * their group is deleted (the comment at consistency.py:53-54).
   */
  lemma HadoopGroupDeleted()
    ensures !Kept(["Hadoop", "hadoop"])
  {
    WordsOfWord("Hadoop");
    WordsOfWord("hadoop");
    CaseOnlyPairUnstable("Hadoop", "hadoop");
  }

  /**
   * Forms of two or more words, each joined by single spaces, make a stable
   * pair as soon as they differ in both the first and the last word.
   */
  lemma MultiWordPairStable(p: seq<string>, q: seq<string>)
    requires |p| >= 2 && |q| >= 2
    requires forall i :: 0 <= i < |p| ==> IsWord(p[i])
    requires forall i :: 0 <= i < |q| ==> IsWord(q[i])
    requires EndsDiffer(p, q)
    ensures PairStable(Join(p, " "), Join(q, " "))
  {
    var a, b := Join(p, " "), Join(q, " ");
    WordsJoin(p);
    WordsJoin(q);
    LowerCaseFixed(a);
    LowerCaseFixed(b);
    PairStableIff(a, b);
  }

  /** Two forms of two words each, differing in both words, are kept in either order. */
  lemma TwoWordGroupKept(x1: string, x2: string, y1: string, y2: string)
    requires IsWord(x1) && IsWord(x2) && IsWord(y1) && IsWord(y2)
    requires x1 != y1 && x2 != y2
    ensures Kept([x1 + " " + x2, y1 + " " + y2]) && Kept([y1 + " " + y2, x1 + " " + x2])
  {
    var p, q := [x1, x2], [y1, y2];
    assert Join(p, " ") == x1 + " " + x2 by { assert p[1..] == [x2]; }
    assert Join(q, " ") == y1 + " " + y2 by { assert q[1..] == [y2]; }
    MultiWordPairStable(p, q);
    MultiWordPairStable(q, p);
  }

  /** The doctest of consistency: the group of "gradientdescent" is kept, in either order. */
  lemma GradientDescentGroupKept(a: string, b: string)
    requires a == "gradient descent" && b == "Gradient Descent"
    ensures Kept([a, b]) && Kept([b, a])
  {
    assert IsWord("gradient") && IsWord("descent") && IsWord("Gradient") && IsWord("Descent");
    TwoWordGroupKept("gradient", "descent", "Gradient", "Descent");
    assert "gradient" + " " + "descent" == a;
    assert "Gradient" + " " + "Descent" == b;
  }

  // ===========================================================================
  // consistency
  // ===========================================================================

  /** What consistency returns for a token list. */
  function Detect(tokens: seq<string>): Groups
  {
    Prune(Groups1(tokens))
  }

  /** consistency, from the tokenizer's output on. */
  method Consistency(tokens: seq<string>) returns (mappings: Groups)
    ensures mappings == Detect(tokens)
  {
    mappings := BuildGroups(tokens);
    mappings := PruneGroups(mappings);
  }

  /**
   * The report: every key it holds has at least two distinct forms, all of them
   * surface forms of windows with that key, every consecutive pair stable; and
   * every key of phase 1 whose group passes the test is in it.
   */
  lemma DetectSpec(tokens: seq<string>)
    ensures forall k :: k in Detect(tokens) ==>
      k in Groups1(tokens) && Detect(tokens)[k] == Groups1(tokens)[k]
    ensures forall k :: k in Detect(tokens) ==>
      |Detect(tokens)[k]| >= 2 && NoDup(Detect(tokens)[k]) && Kept(Detect(tokens)[k])
    ensures forall k :: k in Groups1(tokens) && Kept(Groups1(tokens)[k]) ==> k in Detect(tokens)
    ensures forall k, f :: k in Detect(tokens) && f in Detect(tokens)[k] ==>
      exists n: nat, i: nat :: 1 <= n <= MaxGram && i + n <= |tokens|
        && Key(Gram(tokens, i, n)) == k && Surface(Gram(tokens, i, n)) == f
  {
    Groups1Spec(tokens);
    PruneSpec(Groups1(tokens));
  }
}
