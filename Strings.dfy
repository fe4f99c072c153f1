/** The three java.lang.String operations the core relies on: a substring test
    (the database's `LIKE '%s%'`), `split` on a single-character separator and
    `equalsIgnoreCase`. */
module Strings {

  /** `s` occurs in `text` starting at position `i`. */
  predicate OccursAt(text: string, s: string, i: nat) {
    i + |s| <= |text| && text[i..i + |s|] == s
  }

  /** `s` occurs in `text` as a contiguous substring. */
  predicate Contains(text: string, s: string) {
    exists i: nat | i <= |text| :: OccursAt(text, s, i)
  }

  lemma ContainsMiddle(a: string, b: string, c: string)
    ensures Contains(a + b + c, b)
  {
    var t := a + b + c;
    assert t[|a|..|a| + |b|] == b;
    assert OccursAt(t, b, |a|);
  }

  lemma ContainsPrefix(a: string, b: string)
    ensures Contains(a + b, a)
  {
    assert (a + b)[0..|a|] == a;
    assert OccursAt(a + b, a, 0);
  }

  lemma ContainsSuffix(a: string, b: string)
    ensures Contains(a + b, b)
  {
    assert (a + b)[|a|..|a| + |b|] == b;
    assert OccursAt(a + b, b, |a|);
  }

  lemma ContainsTransitive(a: string, b: string, c: string)
    requires Contains(a, b) && Contains(b, c)
    ensures Contains(a, c)
  {
    var i: nat :| i <= |a| && OccursAt(a, b, i);
    var j: nat :| j <= |b| && OccursAt(b, c, j);
    assert i + |b| <= |a| && a[i..i + |b|] == b;
    assert j + |c| <= |b| && b[j..j + |c|] == c;
    forall k | 0 <= k < |c|
      ensures a[i + j + k] == c[k]
    {
      assert a[i..i + |b|][j + k] == b[j + k];
      assert b[j..j + |c|][k] == c[k];
    }
    assert a[i + j..i + j + |c|] == c;
    assert OccursAt(a, c, i + j);
  }

  /** Number of occurrences of `sep` in `s`. */
  function Occurrences(s: string, sep: char): nat {
    if s == [] then 0 else (if s[0] == sep then 1 else 0) + Occurrences(s[1..], sep)
  }

  /** The strings of `ps` with `sep` between each two of them. */
  function Join(ps: seq<string>, sep: char): string {
    if ps == [] then "" else if |ps| == 1 then ps[0] else ps[0] + [sep] + Join(ps[1..], sep)
  }

  /** Extending the first string of `ps` at the front extends the joined text. */
  lemma JoinPrepend(x: string, ps: seq<string>, sep: char)
    requires ps != []
    ensures Join([x + ps[0]] + ps[1..], sep) == x + Join(ps, sep)
  {
    var qs := [x + ps[0]] + ps[1..];
    assert qs[1..] == ps[1..];
    if |ps| > 1 {
      assert x + ps[0] + [sep] + Join(ps[1..], sep) == x + (ps[0] + [sep] + Join(ps[1..], sep));
    }
  }

  /** A text in which the separator occurs holds it. */
  lemma {:induction false} OccurrencesIn(s: string, sep: char)
    requires Occurrences(s, sep) > 0
    ensures sep in s
  {
    if s[0] != sep {
      OccurrencesIn(s[1..], sep);
    }
  }

  /** The pieces of `s` between occurrences of `sep`, empty pieces included:
      one more piece than there are separators, none holding the separator,
      and joined with the separator they give back `s`. */
  function Pieces(s: string, sep: char): (r: seq<string>)
    ensures |r| == Occurrences(s, sep) + 1
    ensures forall k | 0 <= k < |r| :: sep !in r[k]
    ensures Join(r, sep) == s
  {
    if s == [] then [""]
    else
      var rest := Pieces(s[1..], sep);
      if s[0] == sep then
        assert [sep] + s[1..] == s;
        [""] + rest
      else
        JoinPrepend([s[0]], rest, sep);
        assert [s[0]] + s[1..] == s;
        [[s[0]] + rest[0]] + rest[1..]
  }

  /** The pieces are the only separator-free strings that join to the text. */
  lemma {:induction false} PiecesOfJoin(ps: seq<string>, sep: char)
    requires ps != [] && forall k | 0 <= k < |ps| :: sep !in ps[k]
    ensures Pieces(Join(ps, sep), sep) == ps
  {
    if |ps| == 1 {
      PiecesWithoutSeparator(ps[0], sep);
    } else {
      PiecesOfJoin(ps[1..], sep);
      PiecesCons(ps[0], Join(ps[1..], sep), sep);
      assert [ps[0]] + ps[1..] == ps;
    }
  }

  /** `n` empty strings. */
  function Empties(n: nat): (r: seq<string>)
    ensures |r| == n && forall k | 0 <= k < n :: r[k] == ""
  {
    seq(n, k => "")
  }

  /** Removes the empty strings at the end of `ps`. */
  function DropTrailingEmpty(ps: seq<string>): (r: seq<string>)
    ensures |r| <= |ps| && r == ps[..|r|]
    ensures r == [] || r[|r| - 1] != ""
    ensures forall k | |r| <= k < |ps| :: ps[k] == ""
  {
    if ps != [] && ps[|ps| - 1] == "" then DropTrailingEmpty(ps[..|ps| - 1]) else ps
  }

  /** `s.split(sep)` in Java (limit 0): `[s]` itself when `sep` does not occur;
      otherwise the pieces around each separator with the trailing empty ones
      removed, so that `s` is the parts joined by `sep`, followed by one
      separator for each empty piece dropped. */
  function Split(s: string, sep: char): (r: seq<string>)
    ensures |r| <= Occurrences(s, sep) + 1
    ensures forall k | 0 <= k < |r| :: sep !in r[k]
    ensures sep !in s ==> r == [s]
    ensures sep in s ==> r == [] || r[|r| - 1] != ""
    ensures sep in s ==> Join(r + Empties(|Pieces(s, sep)| - |r|), sep) == s
  {
    if sep !in s then [s]
    else
      DroppedPieces(s, sep);
      DropTrailingEmpty(Pieces(s, sep))
  }

  /** What `Split` promises of the pieces with their trailing empties dropped. */
  lemma DroppedPieces(s: string, sep: char)
    ensures var r := DropTrailingEmpty(Pieces(s, sep));
      && |r| <= Occurrences(s, sep) + 1
      && (forall k | 0 <= k < |r| :: sep !in r[k])
      && Join(r + Empties(|Pieces(s, sep)| - |r|), sep) == s
  {
    var ps := Pieces(s, sep);
    var r := DropTrailingEmpty(ps);
    forall k | 0 <= k < |r|
      ensures sep !in r[k]
    {
      assert r[k] == ps[..|r|][k] == ps[k];
    }
    RefillDropped(ps);
  }

  /** Putting back as many empty strings as were dropped restores the pieces. */
  lemma RefillDropped(ps: seq<string>)
    ensures DropTrailingEmpty(ps) + Empties(|ps| - |DropTrailingEmpty(ps)|) == ps
  {
    var r := DropTrailingEmpty(ps);
    var e := Empties(|ps| - |r|);
    forall k | 0 <= k < |ps|
      ensures (r + e)[k] == ps[k]
    {
      if k < |r| {
        assert r[k] == ps[..|r|][k];
      }
    }
  }

  lemma {:induction false} PiecesWithoutSeparator(s: string, sep: char)
    requires sep !in s
    ensures Pieces(s, sep) == [s]
  {
    if s != [] {
      PiecesWithoutSeparator(s[1..], sep);
      assert [s[0]] + s[1..] == s;
    }
  }

  /** Splitting at one separator splits the two sides independently. */
  lemma {:induction false} PiecesConcat(a: string, b: string, sep: char)
    ensures Pieces(a + [sep] + b, sep) == Pieces(a, sep) + Pieces(b, sep)
  {
    if a == [] {
      assert a + [sep] + b == [sep] + b;
      assert ([sep] + b)[1..] == b;
    } else {
      assert (a + [sep] + b)[1..] == a[1..] + [sep] + b;
      PiecesConcat(a[1..], b, sep);
    }
  }

  /** Dropping trailing empties never reaches into a prefix ending in a nonempty piece. */
  lemma {:induction false} DropTrailingEmptyKeepsPrefix(xs: seq<string>, ys: seq<string>)
    requires xs != [] && xs[|xs| - 1] != ""
    ensures |DropTrailingEmpty(xs + ys)| >= |xs|
    ensures DropTrailingEmpty(xs + ys)[..|xs|] == xs
    decreases |ys|
  {
    var all := xs + ys;
    if ys != [] && ys[|ys| - 1] == "" {
      assert all[..|all| - 1] == xs + ys[..|ys| - 1];
      DropTrailingEmptyKeepsPrefix(xs, ys[..|ys| - 1]);
    } else {
      assert all[..|xs|] == xs;
    }
  }

  /** A first piece without separator splits off as itself. */
  lemma PiecesCons(a: string, b: string, sep: char)
    requires sep !in a
    ensures Pieces(a + [sep] + b, sep) == [a] + Pieces(b, sep)
  {
    PiecesWithoutSeparator(a, sep);
    PiecesConcat(a, b, sep);
  }

  /** Text that starts with a separator adds its own pieces after those of `a`. */
  lemma PiecesAppend(a: string, b: string, sep: char)
    requires b != [] && b[0] == sep
    ensures Pieces(a + b, sep) == Pieces(a, sep) + Pieces(b[1..], sep)
  {
    assert a + b == a + [sep] + b[1..];
    PiecesConcat(a, b[1..], sep);
  }

  /** The pieces of `root.segment.field` followed by `rest`, which is empty or
      starts with a separator. */
  lemma ThreePieces(root: string, segment: string, field: string, rest: string, sep: char)
    requires sep !in root && sep !in segment && sep !in field
    requires rest == [] || rest[0] == sep
    ensures Pieces(root + [sep] + segment + [sep] + field + rest, sep)
         == [root, segment, field] + (if rest == [] then [] else Pieces(rest[1..], sep))
  {
    var front := root + [sep] + segment;
    var three := front + [sep] + field;
    PiecesWithoutSeparator(root, sep);
    PiecesWithoutSeparator(segment, sep);
    PiecesWithoutSeparator(field, sep);
    PiecesConcat(root, segment, sep);
    PiecesConcat(front, field, sep);
    assert Pieces(three, sep) == [root, segment, field];
    if rest == [] {
      assert three + rest == three;
    } else {
      PiecesAppend(three, rest, sep);
    }
  }

  /** A piece of `s` is nonempty when `s` holds a character other than the separator. */
  lemma {:induction false} PiecesNonEmpty(s: string, sep: char, i: nat) returns (k: nat)
    requires i < |s| && s[i] != sep
    ensures k < |Pieces(s, sep)| && Pieces(s, sep)[k] != ""
  {
    if s[0] != sep {
      k := 0;
    } else {
      var j := PiecesNonEmpty(s[1..], sep, i - 1);
      k := j + 1;
    }
  }

  /** A text made of separators only has empty pieces only. */
  lemma {:induction false} PiecesOfSeparators(s: string, sep: char)
    requires forall i | 0 <= i < |s| :: s[i] == sep
    ensures forall k | 0 <= k < |Pieces(s, sep)| :: Pieces(s, sep)[k] == ""
  {
    if s != [] {
      PiecesOfSeparators(s[1..], sep);
    }
  }

  /** Dropping the trailing empty pieces keeps the first three when the third
      or a later one is nonempty. */
  lemma DropTrailingEmptyKeepsThree(three: seq<string>, tail: seq<string>, k: nat)
    requires |three| == 3
    requires three[2] != "" || (k < |tail| && tail[k] != "")
    ensures |DropTrailingEmpty(three + tail)| >= 3 && DropTrailingEmpty(three + tail)[..3] == three
  {
    if three[2] != "" {
      DropTrailingEmptyKeepsPrefix(three, tail);
    } else {
      var xs := three + tail[..k + 1];
      assert xs + tail[k + 1..] == three + tail;
      DropTrailingEmptyKeepsPrefix(xs, tail[k + 1..]);
      assert xs[..3] == three;
    }
  }

  /** A key `root.segment.field`, possibly followed by further separated parts,
      splits into those three parts first, as long as the split does not drop
      the field: the field is nonempty or a later part is. The parts beyond the
      third do not disturb the three. */
  lemma SplitThreeParts(root: string, segment: string, field: string, rest: string, sep: char)
    requires sep !in root && sep !in segment && sep !in field
    requires rest == [] || rest[0] == sep
    requires field != "" || exists i | 0 <= i < |rest| :: rest[i] != sep
    ensures var parts := Split(root + [sep] + segment + [sep] + field + rest, sep);
      |parts| >= 3 && parts[0] == root && parts[1] == segment && parts[2] == field
  {
    var key := root + [sep] + segment + [sep] + field + rest;
    ThreePieces(root, segment, field, rest, sep);
    OccurrencesIn(key, sep);
    var tail := if rest == [] then [] else Pieces(rest[1..], sep);
    var k := 0;
    if field == "" {
      var i :| 0 <= i < |rest| && rest[i] != sep;
      k := PiecesNonEmpty(rest[1..], sep, i - 1);
    }
    DropTrailingEmptyKeepsThree([root, segment, field], tail, k);
    assert Split(key, sep) == DropTrailingEmpty(Pieces(key, sep));
  }

  /** A key `root.segment.` followed by separators only loses its empty field
      and parts: the split has fewer than three parts. */
  lemma SplitDropsEmptyField(root: string, segment: string, rest: string, sep: char)
    requires sep !in root && sep !in segment
    requires forall i | 0 <= i < |rest| :: rest[i] == sep
    ensures |Split(root + [sep] + segment + [sep] + rest, sep)| < 3
  {
    var key := root + [sep] + segment + [sep] + rest;
    assert key == root + [sep] + segment + [sep] + "" + rest;
    if rest != [] {
      PiecesOfSeparators(rest[1..], sep);
    }
    ThreePieces(root, segment, "", rest, sep);
    OccurrencesIn(key, sep);
    var ps := Pieces(key, sep);
    var parts := Split(key, sep);
    assert forall k | 2 <= k < |ps| :: ps[k] == "";
    assert parts == ps[..|parts|];
  }

  /** Character.toUpperCase restricted to ASCII letters. */
  function UpperAscii(c: char): (u: char)
    ensures 'a' <= c <= 'z' ==> 'A' <= u <= 'Z' && u as int == c as int - 32
    ensures !('a' <= c <= 'z') ==> u == c
  {
    if 'a' <= c <= 'z' then (c as int - 32) as char else c
  }

  /** `a.equalsIgnoreCase(b)`: same length, and each pair of characters equal or
      equal after upper-casing (ASCII letters only). */
  predicate EqualsIgnoreCase(a: string, b: string) {
    |a| == |b| && forall i | 0 <= i < |a| :: a[i] == b[i] || UpperAscii(a[i]) == UpperAscii(b[i])
  }

  /** Ignoring case is an equivalence: reflexive, symmetric and transitive. */
  lemma EqualsIgnoreCaseIsEquivalence(a: string, b: string, c: string)
    ensures EqualsIgnoreCase(a, a)
    ensures EqualsIgnoreCase(a, b) ==> EqualsIgnoreCase(b, a)
    ensures EqualsIgnoreCase(a, b) && EqualsIgnoreCase(b, c) ==> EqualsIgnoreCase(a, c)
  {
  }
}
