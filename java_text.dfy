/** The java.lang.String operations the driver and the service rely on,
    stated over Dafny strings (sequences of UTF-16 code units). */
module JavaText {

  /** Character.toLowerCase, restricted to the ASCII letters. */
  function LowerChar(c: char): char
  {
    if 'A' <= c <= 'Z' then (c as int + 32) as char else c
  }

  /** Character.toUpperCase, restricted to the ASCII letters. */
  function UpperChar(c: char): char
  {
    if 'a' <= c <= 'z' then (c as int - 32) as char else c
  }

  /** String.toLowerCase: every character lowered, the length kept. */
  function Lower(s: string): (r: string)
    ensures |r| == |s|
    ensures forall i :: 0 <= i < |s| ==> r[i] == LowerChar(s[i])
  {
    if s == [] then [] else [LowerChar(s[0])] + Lower(s[1..])
  }

  /** The per-character test of String.equalsIgnoreCase: equal, equal once
      upper-cased, or equal once upper-cased and lowered again. */
  predicate SameIgnoringCase(a: char, b: char)
  {
    a == b || UpperChar(a) == UpperChar(b) || LowerChar(UpperChar(a)) == LowerChar(UpperChar(b))
  }

  lemma SameIgnoringCaseIsLowerEquality(a: char, b: char)
    ensures SameIgnoringCase(a, b) <==> LowerChar(a) == LowerChar(b)
  {
  }

  /** String.equalsIgnoreCase: the same length and every position the same
      ignoring case; a string always equals itself. */
  predicate EqualsIgnoreCase(a: string, b: string)
    ensures a == b ==> EqualsIgnoreCase(a, b)
  {
    |a| == |b| && forall i :: 0 <= i < |a| ==> SameIgnoringCase(a[i], b[i])
  }

  /** equalsIgnoreCase compares the lower-cased forms, so it is an equivalence. */
  lemma EqualsIgnoreCaseIsLowerEquality(a: string, b: string)
    ensures EqualsIgnoreCase(a, b) <==> Lower(a) == Lower(b)
  {
    if EqualsIgnoreCase(a, b) {
      forall i | 0 <= i < |a| ensures Lower(a)[i] == Lower(b)[i] {
        SameIgnoringCaseIsLowerEquality(a[i], b[i]);
      }
    }
    if Lower(a) == Lower(b) {
      forall i | 0 <= i < |a| ensures SameIgnoringCase(a[i], b[i]) {
        assert Lower(a)[i] == Lower(b)[i];
        SameIgnoringCaseIsLowerEquality(a[i], b[i]);
      }
    }
  }

  lemma EqualsIgnoreCaseTransitive(a: string, b: string, c: string)
    requires EqualsIgnoreCase(a, b) && EqualsIgnoreCase(b, c)
    ensures EqualsIgnoreCase(a, c)
  {
    EqualsIgnoreCaseIsLowerEquality(a, b);
    EqualsIgnoreCaseIsLowerEquality(b, c);
    EqualsIgnoreCaseIsLowerEquality(a, c);
  }

  /** String.indexOf(char): the first position holding c, or -1 when there is none. */
  function IndexOf(s: string, c: char): (r: int)
    ensures -1 <= r < |s|
    ensures r == -1 <==> c !in s
    ensures r >= 0 ==> s[r] == c && c !in s[..r]
  {
    if s == [] then -1
    else if s[0] == c then 0
    else
      var k := IndexOf(s[1..], c);
      if k < 0 then -1
      else
        assert s[..k + 1] == [s[0]] + s[1..][..k];
        k + 1
  }

  /** The first c in a string that starts with a c-free stretch and then c is
      right after that stretch. */
  lemma IndexOfAfter(a: string, c: char, b: string)
    requires c !in a
    ensures IndexOf(a + [c] + b, c) == |a|
  {
    assert (a + [c] + b)[|a|] == c;
  }

  /** n copies of x. */
  function Repeat<T>(x: T, n: nat): (r: seq<T>)
    ensures |r| == n
    ensures forall i :: 0 <= i < n ==> r[i] == x
  {
    if n == 0 then [] else [x] + Repeat(x, n - 1)
  }

  /** Every stretch of s between occurrences of sep, the empty ones included;
      there is always one more piece than there are separators. */
  function Pieces(s: string, sep: char): (r: seq<string>)
    ensures |r| >= 1
    ensures forall p :: p in r ==> sep !in p
    decreases |s|
  {
    if s == [] then [[]]
    else
      var rest := Pieces(s[1..], sep);
      if s[0] == sep then [[]] + rest
      else [[s[0]] + rest[0]] + rest[1..]
  }

  /** The pieces glued back together, sep between each two. */
  function Join(ps: seq<string>, sep: char): string
    requires |ps| >= 1
  {
    if |ps| == 1 then ps[0] else ps[0] + [sep] + Join(ps[1..], sep)
  }

  /** The list with its trailing empty strings removed. */
  function TrimTrailingEmpty(ps: seq<string>): (r: seq<string>)
    ensures r <= ps
    ensures r == [] || r[|r| - 1] != []
    ensures forall i :: |r| <= i < |ps| ==> ps[i] == []
  {
    if ps == [] then []
    else if ps[|ps| - 1] == [] then TrimTrailingEmpty(ps[..|ps| - 1])
    else ps
  }

  /** String.split(regex) with limit 0, for a regex that is one ordinary
      character: a string without sep gives itself alone (so "" gives [""]),
      otherwise every piece with the trailing empty ones removed. */
  function Split(s: string, sep: char): (r: seq<string>)
    ensures forall p :: p in r ==> sep !in p
    ensures sep in s ==> r == [] || r[|r| - 1] != []
  {
    if sep !in s then [s] else TrimTrailingEmpty(Pieces(s, sep))
  }

  /** Gluing the pieces back gives the string: Pieces loses nothing. */
  lemma {:induction false} JoinPieces(s: string, sep: char)
    ensures Join(Pieces(s, sep), sep) == s
    decreases |s|
  {
    if s != [] {
      var rest := Pieces(s[1..], sep);
      JoinPieces(s[1..], sep);
      if s[0] == sep {
        assert Join(Pieces(s, sep), sep) == [] + [sep] + Join(rest, sep);
      } else if |rest| == 1 {
        assert Pieces(s, sep) == [[s[0]] + rest[0]];
      } else {
        var ps := Pieces(s, sep);
        assert ps == [[s[0]] + rest[0]] + rest[1..];
        assert ps[1..] == rest[1..];
        assert Join(rest, sep) == rest[0] + [sep] + Join(rest[1..], sep);
      }
    }
  }

  lemma {:induction false} PiecesOfFree(p: string, sep: char)
    requires sep !in p
    ensures Pieces(p, sep) == [p]
    decreases |p|
  {
    if p != [] {
      PiecesOfFree(p[1..], sep);
      assert [p[0]] + p[1..] == p;
    }
  }

  lemma {:induction false} PiecesCons(p: string, t: string, sep: char)
    requires sep !in p
    ensures Pieces(p + [sep] + t, sep) == [p] + Pieces(t, sep)
    decreases |p|
  {
    var s := p + [sep] + t;
    if p == [] {
      assert s[0] == sep && s[1..] == t;
    } else {
      PiecesCons(p[1..], t, sep);
      assert s[0] == p[0] && s[1..] == p[1..] + [sep] + t;
      assert [p[0]] + p[1..] == p;
    }
  }

  /** Splitting what Join produced gives the pieces back, when none holds sep. */
  lemma {:induction false} PiecesJoin(ps: seq<string>, sep: char)
    requires |ps| >= 1
    requires forall p :: p in ps ==> sep !in p
    ensures Pieces(Join(ps, sep), sep) == ps
    decreases |ps|
  {
    if |ps| == 1 {
      PiecesOfFree(ps[0], sep);
    } else {
      assert ps[0] in ps;
      PiecesJoin(ps[1..], sep);
      PiecesCons(ps[0], Join(ps[1..], sep), sep);
      assert [ps[0]] + ps[1..] == ps;
    }
  }

  lemma {:induction false} JoinAppend(ps: seq<string>, qs: seq<string>, sep: char)
    requires |ps| >= 1 && |qs| >= 1
    ensures Join(ps + qs, sep) == Join(ps, sep) + [sep] + Join(qs, sep)
    decreases |ps|
  {
    if |ps| > 1 {
      JoinAppend(ps[1..], qs, sep);
      assert (ps + qs)[1..] == ps[1..] + qs;
    }
  }

  lemma {:induction false} JoinEmpties(n: nat, sep: char)
    requires n >= 1
    ensures Join(Repeat([], n), sep) == Repeat(sep, n - 1)
  {
    if n > 1 {
      JoinEmpties(n - 1, sep);
      assert Repeat<string>([], n)[1..] == Repeat<string>([], n - 1);
    }
  }

  /** Trailing separators only add empty pieces at the end. */
  lemma JoinWithEmpties(ps: seq<string>, n: nat, sep: char)
    requires |ps| >= 1
    ensures Join(ps + Repeat([], n), sep) == Join(ps, sep) + Repeat(sep, n)
  {
    if n == 0 {
      assert ps + Repeat([], n) == ps;
    } else {
      JoinAppend(ps, Repeat([], n), sep);
      JoinEmpties(n, sep);
      assert [sep] + Repeat(sep, n - 1) == Repeat(sep, n);
    }
  }

  lemma {:induction false} TrimEmpties(ps: seq<string>, n: nat)
    requires ps != [] && ps[|ps| - 1] != []
    ensures TrimTrailingEmpty(ps + Repeat([], n)) == ps
  {
    if n > 0 {
      var qs := ps + Repeat([], n);
      assert qs[|qs| - 1] == [];
      assert qs[..|qs| - 1] == ps + Repeat([], n - 1);
      TrimEmpties(ps, n - 1);
    } else {
      assert ps + Repeat([], n) == ps;
    }
  }

  /** Split inverts Join: pieces free of sep, the last one non-empty, come back
      unchanged from Split, however many separators trail the joined string. */
  lemma SplitOfJoin(ps: seq<string>, n: nat, sep: char)
    requires |ps| >= 1 && ps[|ps| - 1] != []
    requires forall p :: p in ps ==> sep !in p
    ensures Split(Join(ps, sep) + Repeat(sep, n), sep) == ps
  {
    var s := Join(ps, sep) + Repeat(sep, n);
    var qs := ps + Repeat([], n);
    JoinWithEmpties(ps, n, sep);
    assert forall p :: p in qs ==> sep !in p;
    PiecesJoin(qs, sep);
    TrimEmpties(ps, n);
  }

  /** What Split returns, joined back and followed by the separators whose
      pieces it dropped, is the original string. */
  lemma SplitShape(s: string, sep: char)
    requires sep in s
    ensures var r := Split(s, sep);
      r != [] ==> s == Join(r, sep) + Repeat(sep, |Pieces(s, sep)| - |r|)
  {
    var r := Split(s, sep);
    var ps := Pieces(s, sep);
    if r != [] {
      assert ps == r + Repeat([], |ps| - |r|);
      JoinPieces(s, sep);
      JoinWithEmpties(r, |ps| - |r|, sep);
    }
  }

  /** Split gives no parts at all exactly for a non-empty string made of
      separators only: every piece is empty and all of them are dropped. */
  lemma SplitEmpty(s: string, sep: char)
    ensures Split(s, sep) == [] <==> s != [] && forall i :: 0 <= i < |s| ==> s[i] == sep
  {
    var ps := Pieces(s, sep);
    if Split(s, sep) == [] {
      assert sep in s;
      assert ps == Repeat<string>([], |ps|);
      JoinPieces(s, sep);
      JoinEmpties(|ps|, sep);
    }
    if s != [] && forall i :: 0 <= i < |s| ==> s[i] == sep {
      var n := |s|;
      assert s == Repeat(sep, n);
      assert s[0] == sep;
      JoinEmpties(n + 1, sep);
      PiecesJoin(Repeat<string>([], n + 1), sep);
      assert ps == Repeat<string>([], n + 1);
    }
  }

  /** When Split gives exactly two parts, the string is a sep-free head, sep, a
      non-empty sep-free tail and trailing separators (SplitInTwoOf is the converse). */
  lemma SplitInTwo(s: string, sep: char)
    ensures |Split(s, sep)| == 2 ==>
      var r := Split(s, sep);
      r[1] != [] && sep !in r[0] && sep !in r[1] &&
      s == r[0] + [sep] + r[1] + Repeat(sep, |Pieces(s, sep)| - 2)
  {
    var r := Split(s, sep);
    if |r| == 2 {
      assert r[0] in r && r[1] in r;
      SplitShape(s, sep);
      assert Join(r, sep) == r[0] + [sep] + r[1];
    }
  }

  lemma SplitInTwoOf(k: string, v: string, n: nat, sep: char)
    requires sep !in k && sep !in v && v != []
    ensures Split(k + [sep] + v + Repeat(sep, n), sep) == [k, v]
  {
    var ps := [k, v];
    assert Join(ps, sep) == k + [sep] + v;
    SplitOfJoin(ps, n, sep);
  }
}
