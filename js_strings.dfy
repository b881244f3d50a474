/** The JavaScript string built-ins the core relies on: `trim`, `split` on a one-character
    separator, `charAt(0)` and `slice(0, n)`. */
module JsStrings {

  /** The code points that `String.prototype.trim` strips: the WhiteSpace and LineTerminator
      productions of the ECMAScript language specification (TAB, VT, FF, SP, NBSP, ZWNBSP,
      the other Unicode "Zs" space separators, LF, CR, LS and PS). */
  predicate IsWhiteSpace(c: char) {
    c == '\t' || c == '\U{B}' || c == '\U{C}' || c == ' ' || c == '\U{A0}' || c == '\U{FEFF}'
    || c == '\U{1680}' || ('\U{2000}' <= c <= '\U{200A}') || c == '\U{202F}' || c == '\U{205F}'
    || c == '\U{3000}' || c == '\n' || c == '\r' || c == '\U{2028}' || c == '\U{2029}'
  }

  predicate AllWhiteSpace(s: string) {
    forall i :: 0 <= i < |s| ==> IsWhiteSpace(s[i])
  }

  /** Drops the leading white space; what remains is a suffix of `s`. */
  function TrimStart(s: string): (r: string)
    ensures |r| <= |s| && r == s[|s| - |r|..]
    ensures AllWhiteSpace(s[..|s| - |r|])
    ensures r == [] || !IsWhiteSpace(r[0])
  {
    if s != [] && IsWhiteSpace(s[0]) then
      var u := s[1..];
      var r := TrimStart(u);
      assert s[|s| - |r|..] == u[|u| - |r|..];
      var p := s[..|s| - |r|];
      forall i | 0 <= i < |p| ensures IsWhiteSpace(p[i]) {
        if i > 0 { assert p[i] == u[..|u| - |r|][i - 1]; }
      }
      r
    else
      assert s[|s| - |s|..] == s && s[..0] == [];
      s
  }

  /** Drops the trailing white space; what remains is a prefix of `s`. */
  function TrimEnd(s: string): (r: string)
    ensures |r| <= |s| && r == s[..|r|]
    ensures AllWhiteSpace(s[|r|..])
    ensures r == [] || !IsWhiteSpace(r[|r| - 1])
  {
    if s != [] && IsWhiteSpace(s[|s| - 1]) then
      var u := s[..|s| - 1];
      var r := TrimEnd(u);
      assert s[..|r|] == u[..|r|];
      var p := s[|r|..];
      forall i | 0 <= i < |p| ensures IsWhiteSpace(p[i]) {
        if i < |u| - |r| { assert p[i] == u[|r|..][i]; }
      }
      r
    else
      assert s[..|s|] == s && s[|s|..] == [];
      s
  }

  /** `s` is `r` with nothing but white space before and after it. */
  ghost predicate PaddedWithWhiteSpace(s: string, r: string) {
    exists a :: 0 <= a <= a + |r| <= |s| && r == s[a..a + |r|]
                && AllWhiteSpace(s[..a]) && AllWhiteSpace(s[a + |r|..])
  }

  /** `s.trim()`: a contiguous piece of `s` with only white space around it and none at either
      of its ends, empty exactly when `s` holds nothing but white space. */
  function Trim(s: string): (r: string)
    ensures r == [] <==> AllWhiteSpace(s)
    ensures r != [] ==> !IsWhiteSpace(r[0]) && !IsWhiteSpace(r[|r| - 1])
    ensures |r| <= |s|
    ensures PaddedWithWhiteSpace(s, r)
  {
    var t := TrimStart(s);
    var r := TrimEnd(t);
    TrimPieces(s, t, r, |s| - |t|);
    r
  }

  /** Trim's contract from the contracts of its two halves: `t` is `s` without its first `a`
      characters, all white space, and `r` is `t` without trailing white space. */
  lemma TrimPieces(s: string, t: string, r: string, a: nat)
    requires a <= |s| && t == s[a..] && AllWhiteSpace(s[..a]) && (t == [] || !IsWhiteSpace(t[0]))
    requires |r| <= |t| && r == t[..|r|] && AllWhiteSpace(t[|r|..]) && (r == [] || !IsWhiteSpace(r[|r| - 1]))
    ensures r == [] <==> AllWhiteSpace(s)
    ensures r != [] ==> !IsWhiteSpace(r[0]) && !IsWhiteSpace(r[|r| - 1])
    ensures |r| <= |s|
    ensures PaddedWithWhiteSpace(s, r)
  {
    assert s[a..a + |r|] == t[..|r|];
    assert s[a + |r|..] == t[|r|..];
    AllWhiteSpaceSplit(s, a);
    if r != [] {
      assert r[0] == t[0];
    }
  }

  /** A string is all white space exactly when both parts of it at `k` are. */
  lemma AllWhiteSpaceSplit(s: string, k: nat)
    requires k <= |s|
    ensures AllWhiteSpace(s) <==> AllWhiteSpace(s[..k]) && AllWhiteSpace(s[k..])
  {
    if AllWhiteSpace(s[..k]) && AllWhiteSpace(s[k..]) {
      forall i | 0 <= i < |s| ensures IsWhiteSpace(s[i]) {
        if i < k { assert s[i] == s[..k][i]; } else { assert s[i] == s[k..][i - k]; }
      }
    }
  }

  lemma {:induction false} TrimIdempotent(s: string)
    ensures Trim(Trim(s)) == Trim(s)
  {
    var r := Trim(s);
    assert TrimStart(r) == r;
    assert TrimEnd(r) == r;
  }

  /** The number of occurrences of `c` in `s`. */
  function Occurrences(s: string, c: char): nat {
    if s == [] then 0 else (if s[0] == c then 1 else 0) + Occurrences(s[1..], c)
  }

  /** `s.split(sep)` for a one-character separator: the pieces between the separators, one more
      than there are separators, none of them containing the separator. Empty pieces appear
      at a leading, trailing or doubled separator, and `"".split(sep)` is `[""]`. */
  function Split(s: string, sep: char): (r: seq<string>)
    ensures |r| == Occurrences(s, sep) + 1
    ensures forall k :: 0 <= k < |r| ==> sep !in r[k]
  {
    if s == [] then [""]
    else
      var rest := Split(s[1..], sep);
      if s[0] == sep then [""] + rest
      else [[s[0]] + rest[0]] + rest[1..]
  }

  /** `ws.join(sep)` for a one-character separator: it starts with the first piece, and when no
      piece holds the separator it holds one fewer than there are pieces. */
  function Join(ws: seq<string>, sep: char): (r: string)
    requires |ws| >= 1
    ensures |ws[0]| <= |r| && r[..|ws[0]|] == ws[0]
    ensures (forall k :: 0 <= k < |ws| ==> sep !in ws[k]) ==> Occurrences(r, sep) == |ws| - 1
  {
    if |ws| == 1 then
      assert ws[0][..|ws[0]|] == ws[0];
      NoSeparatorInPieces(ws, sep);
      ws[0]
    else
      var rest := Join(ws[1..], sep);
      var r := ws[0] + [sep] + rest;
      assert r[..|ws[0]|] == ws[0];
      assert r == ws[0] + ([sep] + rest);
      OccurrencesConcat(ws[0], [sep] + rest, sep);
      OccurrencesConcat([sep], rest, sep);
      assert Occurrences([sep], sep) == 1 by { assert [sep][1..] == []; }
      NoSeparatorInPieces(ws, sep);
      r
  }

  /** When no piece holds the separator, neither the first piece nor any of the others does. */
  lemma NoSeparatorInPieces(ws: seq<string>, sep: char)
    requires |ws| >= 1
    ensures (forall k :: 0 <= k < |ws| ==> sep !in ws[k]) ==>
      Occurrences(ws[0], sep) == 0 && forall k :: 0 <= k < |ws[1..]| ==> sep !in ws[1..][k]
  {
    if forall k :: 0 <= k < |ws| ==> sep !in ws[k] {
      OccurrencesAbsent(ws[0], sep);
      assert forall k :: 0 <= k < |ws[1..]| ==> ws[1..][k] == ws[k + 1];
    }
  }

  /** Occurrences add up over a concatenation. */
  lemma {:induction false} OccurrencesConcat(a: string, b: string, c: char)
    ensures Occurrences(a + b, c) == Occurrences(a, c) + Occurrences(b, c)
  {
    if a != [] {
      assert (a + b)[0] == a[0] && (a + b)[1..] == a[1..] + b;
      OccurrencesConcat(a[1..], b, c);
    } else {
      assert a + b == b;
    }
  }

  /** A string without `c` has no occurrence of it. */
  lemma {:induction false} OccurrencesAbsent(s: string, c: char)
    requires c !in s
    ensures Occurrences(s, c) == 0
  {
    if s != [] {
      OccurrencesAbsent(s[1..], c);
    }
  }

  /** Joining the pieces again gives back the string that was split. */
  lemma {:induction false} JoinSplit(s: string, sep: char)
    ensures Join(Split(s, sep), sep) == s
  {
    if s != [] {
      var rest := Split(s[1..], sep);
      JoinSplit(s[1..], sep);
      if s[0] == sep {
        assert Split(s, sep) == [""] + rest;
        assert (Split(s, sep))[1..] == rest;
      } else {
        var r := Split(s, sep);
        assert r[0] == [s[0]] + rest[0];
        assert r[1..] == rest[1..];
        if |rest| == 1 {
          assert s == [s[0]] + s[1..];
        } else {
          assert Join(rest, sep) == rest[0] + [sep] + Join(rest[1..], sep);
          assert s == [s[0]] + s[1..];
        }
      }
    }
  }

  /** `w.charAt(0)`: the first character as a string, or "" for the empty string. */
  function FirstChar(w: string): (r: string)
    ensures |r| == (if w == [] then 0 else 1)
    ensures w != [] ==> r[0] == w[0]
  {
    if w == [] then "" else [w[0]]
  }

  function Min(a: int, b: int): int {
    if a <= b then a else b
  }

  /** `s.slice(0, n)`: the first `n` characters, or all of `s` when it is shorter. */
  function Prefix(s: string, n: nat): (r: string)
    ensures |r| == Min(n, |s|)
    ensures r == s[..|r|]
  {
    if |s| <= n then s else s[..n]
  }
}
