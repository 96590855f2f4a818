/**
 * The Python 2 `str` built-ins that consistency.py relies on: `lower`, `split`
 * (with no argument), `join`, `strip(chars)` and `replace(c, "")`.
 *
 * Python 2 `str` values are byte strings, so `lower` maps only 'A'..'Z' and
 * `split` breaks on the six ASCII white-space characters.
 */
module Text {

  // ---------------------------------------------------------------------------
  // Characters
  // ---------------------------------------------------------------------------

  /** The characters `str.split()` breaks on: space, \t, \n, \r, \v and \f. */
  predicate IsSpace(c: char)
  {
    c == ' ' || c == '\t' || c == '\n' || c == '\r' || c == '\U{000B}' || c == '\U{000C}'
  }

  predicate IsUpper(c: char)
  {
    'A' <= c <= 'Z'
  }

  /** `c.lower()` on a one-byte string. */
  function LowerChar(c: char): (r: char)
    ensures !IsUpper(r)
    ensures IsSpace(r) == IsSpace(c)
    ensures r == c <==> !IsUpper(c)
  {
    if IsUpper(c) then (c as int + 32) as char else c
  }

  /** `s.lower()`. */
  function Lower(s: string): (r: string)
    ensures |r| == |s|
    ensures forall i :: 0 <= i < |s| ==> r[i] == LowerChar(s[i])
  {
    if s == [] then [] else [LowerChar(s[0])] + Lower(s[1..])
  }

  /** Lower-casing `s` gives `t` when it does so character by character. */
  lemma LowerIs(s: string, t: string)
    requires |s| == |t| && forall i :: 0 <= i < |s| ==> LowerChar(s[i]) == t[i]
    ensures Lower(s) == t
  {
  }

  /** `lower()` leaves no capital letter. */
  lemma LowerNoUpper(s: string)
    ensures forall c :: c in Lower(s) ==> !IsUpper(c)
  {
    forall c | c in Lower(s) ensures !IsUpper(c) {
      var i :| 0 <= i < |s| && Lower(s)[i] == c;
    }
  }

  lemma {:induction false} LowerAppend(u: string, v: string)
    ensures Lower(u + v) == Lower(u) + Lower(v)
  {
    var l, r := Lower(u + v), Lower(u) + Lower(v);
    assert |l| == |r|;
    forall i | 0 <= i < |l| ensures l[i] == r[i] {
      if i < |u| { assert (u + v)[i] == u[i]; } else { assert (u + v)[i] == v[i - |u|]; }
    }
  }

  // ---------------------------------------------------------------------------
  // sep.join(ws)
  // ---------------------------------------------------------------------------

  /** `sep.join(ws)`: the pieces with `sep` between consecutive ones. */
  function Join(ws: seq<string>, sep: string): (r: string)
    ensures ws == [] ==> r == []
    ensures |ws| == 1 ==> r == ws[0]
  {
    if |ws| == 0 then ""
    else if |ws| == 1 then ws[0]
    else ws[0] + sep + Join(ws[1..], sep)
  }

  /** Joining two pieces puts the separator between them once. */
  lemma JoinTwo(x: string, y: string, sep: string)
    ensures Join([x, y], sep) == x + sep + y
  {
    assert [x, y][1..] == [y];
  }

  /** Joining a concatenation of two non-empty lists puts the separator once between their joins. */
  lemma {:induction false} JoinAppend(p: seq<string>, q: seq<string>, sep: string)
    requires p != [] && q != []
    ensures Join(p + q, sep) == Join(p, sep) + sep + Join(q, sep)
  {
    assert (p + q)[0] == p[0];
    if |p| == 1 {
      assert (p + q)[1..] == q;
    } else {
      assert (p + q)[1..] == p[1..] + q;
      JoinAppend(p[1..], q, sep);
      assert Join(p + q, sep) == p[0] + sep + (Join(p[1..], sep) + sep + Join(q, sep));
    }
  }

  /** A join whose first piece is non-empty starts with that piece's first character. */
  lemma JoinFirst(ws: seq<string>, sep: string)
    requires ws != [] && ws[0] != []
    ensures Join(ws, sep) != [] && Join(ws, sep)[0] == ws[0][0]
  {
    if |ws| > 1 {
      assert Join(ws, sep) == ws[0] + sep + Join(ws[1..], sep);
    }
  }

  /** A join whose last piece is non-empty ends with that piece's last character. */
  lemma {:induction false} JoinLast(ws: seq<string>, sep: string)
    requires ws != [] && ws[|ws| - 1] != []
    ensures var r := Join(ws, sep); r != [] && r[|r| - 1] == ws[|ws| - 1][|ws[|ws| - 1]| - 1]
  {
    if |ws| > 1 {
      assert ws[1..][|ws[1..]| - 1] == ws[|ws| - 1];
      JoinLast(ws[1..], sep);
      var t := Join(ws[1..], sep);
      assert Join(ws, sep) == ws[0] + sep + t;
      assert (ws[0] + sep + t)[|ws[0] + sep + t| - 1] == t[|t| - 1];
    }
  }

  /** The per-piece lower-casing `[w.lower() for w in ws]`. */
  function LowerEach(ws: seq<string>): (r: seq<string>)
    ensures |r| == |ws|
    ensures forall i :: 0 <= i < |ws| ==> r[i] == Lower(ws[i])
  {
    if ws == [] then [] else [Lower(ws[0])] + LowerEach(ws[1..])
  }

  /** Lower-casing each piece and then concatenating is lower-casing the concatenation. */
  lemma {:induction false} LowerJoin(ws: seq<string>)
    ensures Join(LowerEach(ws), "") == Lower(Join(ws, ""))
  {
    if |ws| > 1 {
      var lw := LowerEach(ws);
      var tail := Join(ws[1..], "");
      calc {
        Join(lw, "");
        lw[0] + "" + Join(lw[1..], "");
        { assert lw[1..] == LowerEach(ws[1..]); }
        Lower(ws[0]) + "" + Join(LowerEach(ws[1..]), "");
        { LowerJoin(ws[1..]); }
        Lower(ws[0]) + "" + Lower(tail);
        { assert Lower(ws[0]) + "" == Lower(ws[0]); }
        Lower(ws[0]) + Lower(tail);
        { LowerAppend(ws[0], tail); }
        Lower(ws[0] + tail);
        { assert ws[0] + tail == ws[0] + "" + tail; }
        Lower(Join(ws, ""));
      }
    }
  }

  // ---------------------------------------------------------------------------
  // s.split()
  // ---------------------------------------------------------------------------

  /** A piece that `split()` can produce: non-empty and free of white space. */
  predicate IsWord(w: string)
  {
    w != [] && forall i :: 0 <= i < |w| ==> !IsSpace(w[i])
  }

  /** The length of the run of non-space characters that starts `s`. */
  function WordLength(s: string): (n: nat)
    ensures n <= |s|
    ensures forall i :: 0 <= i < n ==> !IsSpace(s[i])
    ensures n == |s| || IsSpace(s[n])
  {
    if s == [] || IsSpace(s[0]) then 0 else 1 + WordLength(s[1..])
  }

  /** `s.split()`: the maximal runs of non-space characters, in order. */
  function Words(s: string): (ws: seq<string>)
    ensures forall i :: 0 <= i < |ws| ==> IsWord(ws[i])
    decreases |s|
  {
    if s == [] then []
    else if IsSpace(s[0]) then Words(s[1..])
    else
      var n := WordLength(s);
      [s[..n]] + Words(s[n..])
  }

  lemma {:induction false} WordLengthAppend(w: string, t: string)
    requires forall i :: 0 <= i < |w| ==> !IsSpace(w[i])
    ensures WordLength(w + t) == |w| + WordLength(t)
  {
    if w == [] {
      assert w + t == t;
    } else {
      assert (w + t)[0] == w[0];
      assert (w + t)[1..] == w[1..] + t;
      WordLengthAppend(w[1..], t);
    }
  }

  /** A single word splits into itself. */
  lemma WordsOfWord(w: string)
    requires IsWord(w)
    ensures Words(w) == [w]
  {
    WordLengthAppend(w, "");
    assert w + "" == w;
    assert w[..|w|] == w && w[|w|..] == [];
  }

  /** Splitting undoes joining with single spaces. */
  lemma {:induction false} WordsJoin(ws: seq<string>)
    requires forall i :: 0 <= i < |ws| ==> IsWord(ws[i])
    ensures Words(Join(ws, " ")) == ws
  {
    if |ws| == 1 {
      WordsOfWord(ws[0]);
    } else if |ws| > 1 {
      var w, rest := ws[0], Join(ws[1..], " ");
      var s := w + " " + rest;
      assert s == w + (" " + rest);
      WordLengthAppend(w, " " + rest);
      assert WordLength(s) == |w|;
      assert s[..|w|] == w;
      assert s[|w|..] == " " + rest;
      assert (" " + rest)[1..] == rest;
      WordsJoin(ws[1..]);
      assert Words(s) == [w] + Words(rest);
    }
  }

  /**
   * Replacing the first character of a string by another non-space character
   * changes only the first character of the first word.
   */
  lemma WordsReplaceFirst(s: string, c: char)
    requires s != [] && !IsSpace(s[0]) && !IsSpace(c)
    ensures Words(s) != [] && Words(s)[0][0] == s[0]
    ensures Words([c] + s[1..]) == [[c] + Words(s)[0][1..]] + Words(s)[1..]
  {
    var t := [c] + s[1..];
    var n := WordLength(s);
    assert t[1..] == s[1..];
    assert WordLength(t) == n;
    assert t[n..] == s[n..];
    assert t[..n] == [c] + s[..n][1..];
  }

  // ---------------------------------------------------------------------------
  // s.strip(cs)
  // ---------------------------------------------------------------------------

  /** `s.lstrip(cs)`: drops the longest prefix made of characters in `cs`. */
  function TrimLeft(s: string, cs: set<char>): string
  {
    if s != [] && s[0] in cs then TrimLeft(s[1..], cs) else s
  }

  /** `s.rstrip(cs)`: drops the longest suffix made of characters in `cs`. */
  function TrimRight(s: string, cs: set<char>): string
  {
    if s != [] && s[|s| - 1] in cs then TrimRight(s[..|s| - 1], cs) else s
  }

  /** `lstrip` keeps a suffix, drops only characters of `cs`, and stops at one that is not in `cs`. */
  lemma {:induction false} TrimLeftSpec(s: string, cs: set<char>)
    ensures var r := TrimLeft(s, cs);
      && |r| <= |s| && r == s[|s| - |r|..]
      && (forall i :: 0 <= i < |s| - |r| ==> s[i] in cs)
      && (r == [] || r[0] !in cs)
  {
    if s != [] && s[0] in cs {
      var t := s[1..];
      TrimLeftSpec(t, cs);
      var r := TrimLeft(t, cs);
      assert t[|t| - |r|..] == s[|s| - |r|..];
      forall i | 0 <= i < |s| - |r| ensures s[i] in cs {
        if i > 0 { assert s[i] == t[i - 1]; }
      }
    }
  }

  /** `rstrip` keeps a prefix, drops only characters of `cs`, and stops at one that is not in `cs`. */
  lemma {:induction false} TrimRightSpec(s: string, cs: set<char>)
    ensures var r := TrimRight(s, cs);
      && |r| <= |s| && r == s[..|r|]
      && (forall i :: |r| <= i < |s| ==> s[i] in cs)
      && (r == [] || r[|r| - 1] !in cs)
  {
    if s != [] && s[|s| - 1] in cs {
      var t := s[..|s| - 1];
      TrimRightSpec(t, cs);
      var r := TrimRight(t, cs);
      assert t[..|r|] == s[..|r|];
      forall i | |r| <= i < |s| ensures s[i] in cs {
        if i < |t| { assert s[i] == t[i]; }
      }
    }
  }

  /** `s.strip(cs)`. */
  function Strip(s: string, cs: set<char>): string
  {
    TrimRight(TrimLeft(s, cs), cs)
  }

  /** What `strip` leaves is a slice of `s` with no character of `cs` at either end. */
  lemma StripShape(s: string, cs: set<char>)
    ensures var r := Strip(s, cs);
      && (r == [] || (r[0] !in cs && r[|r| - 1] !in cs))
      && exists i, j :: 0 <= i <= j <= |s| && r == s[i..j]
  {
    var l := TrimLeft(s, cs);
    TrimLeftSpec(s, cs);
    var r := TrimRight(l, cs);
    TrimRightSpec(l, cs);
    assert r == s[|s| - |l|..|s| - |l| + |r|];
  }

  /** `strip` leaves a string alone when neither end is in `cs`. */
  lemma StripNothing(s: string, cs: set<char>)
    requires s != [] && s[0] !in cs && s[|s| - 1] !in cs
    ensures Strip(s, cs) == s
  {
  }

  /** `strip` keeps only characters of `s`. */
  lemma StripMembers(s: string, cs: set<char>)
    ensures forall c :: c in Strip(s, cs) ==> c in s
  {
    StripShape(s, cs);
    var i, j :| 0 <= i <= j <= |s| && Strip(s, cs) == s[i..j];
    forall c | c in s[i..j] ensures c in s {
      var n :| 0 <= n < j - i && s[i..j][n] == c;
      assert s[i + n] == c;
    }
  }

  /** Something of `s` that `strip(cs)` must keep. */
  predicate HasKept(s: string, cs: set<char>)
  {
    exists i :: 0 <= i < |s| && s[i] !in cs
  }

  lemma {:induction false} TrimLeftAppend(u: string, v: string, cs: set<char>)
    requires HasKept(u, cs)
    ensures TrimLeft(u + v, cs) == TrimLeft(u, cs) + v
  {
    if u[0] in cs {
      assert (u + v)[1..] == u[1..] + v;
      var i :| 0 <= i < |u| && u[i] !in cs;
      assert u[1..][i - 1] !in cs;
      TrimLeftAppend(u[1..], v, cs);
    }
  }

  lemma {:induction false} TrimRightAppend(u: string, v: string, cs: set<char>)
    requires HasKept(v, cs)
    ensures TrimRight(u + v, cs) == u + TrimRight(v, cs)
  {
    if v[|v| - 1] in cs {
      assert (u + v)[..|u + v| - 1] == u + v[..|v| - 1];
      var i :| 0 <= i < |v| && v[i] !in cs;
      assert i < |v| - 1 && v[..|v| - 1][i] !in cs;
      TrimRightAppend(u, v[..|v| - 1], cs);
    }
  }

  /** With something kept on both sides, `strip` of `u + m + v` trims only `u`'s front and `v`'s back. */
  lemma StripAround(u: string, m: string, v: string, cs: set<char>)
    requires HasKept(u, cs) && HasKept(v, cs)
    ensures Strip(u + m + v, cs) == TrimLeft(u, cs) + m + TrimRight(v, cs)
  {
    assert u + m + v == u + (m + v);
    TrimLeftAppend(u, m + v, cs);
    var tl := TrimLeft(u, cs);
    assert tl + (m + v) == (tl + m) + v;
    TrimRightAppend(tl + m, v, cs);
  }

  // ---------------------------------------------------------------------------
  // s.replace(c, "")
  // ---------------------------------------------------------------------------

  /** `s.replace(c, "")` for a one-character `c`. */
  function Delete(s: string, c: char): string
  {
    if s == [] then [] else (if s[0] == c then [] else [s[0]]) + Delete(s[1..], c)
  }

  /** `Delete` removes every `c`, changes a string without `c` in no way, and adds no character. */
  lemma {:induction false} DeleteSpec(s: string, c: char)
    ensures c !in Delete(s, c)
    ensures c !in s ==> Delete(s, c) == s
    ensures forall d :: d in Delete(s, c) ==> d in s
  {
    if s != [] {
      DeleteSpec(s[1..], c);
      if c !in s {
        assert s == [s[0]] + s[1..];
      }
    }
  }

  lemma {:induction false} DeleteAppend(u: string, v: string, c: char)
    ensures Delete(u + v, c) == Delete(u, c) + Delete(v, c)
  {
    if u != [] {
      assert (u + v)[0] == u[0];
      assert (u + v)[1..] == u[1..] + v;
      DeleteAppend(u[1..], v, c);
      var h := if u[0] == c then [] else [u[0]];
      assert Delete(u + v, c) == h + Delete(u[1..] + v, c);
      assert Delete(u, c) == h + Delete(u[1..], c);
    } else {
      assert u + v == v;
    }
  }
}
