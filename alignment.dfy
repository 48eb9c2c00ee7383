/**
 * A word alignment between a source sentence and a target sentence: a list
 * of links `s-t`, each saying that source position `s` is aligned to target
 * position `t`. The membership queries are the ones the alignment tests ask
 * (`sourceIndexIsAligned`, `targetIndexIsAligned`); `F2E` and `E2F` are the
 * per-position link lists the lexical-probability mappers walk over.
 */
module Alignments {
  import opened Wrappers

  datatype Link = Link(src: nat, tgt: nat)

  type Alignment = seq<Link>

  /** Is source index `i` the first number of some listed pair? Any `int` may be asked. */
  function SourceIndexIsAligned(a: Alignment, i: int): (r: bool)
    ensures r <==> exists k :: 0 <= k < |a| && a[k].src == i
  {
    if a == [] then false
    else a[0].src == i || SourceIndexIsAligned(a[1..], i)
  }

  /** Is target index `j` the second number of some listed pair? */
  function TargetIndexIsAligned(a: Alignment, j: int): (r: bool)
    ensures r <==> exists k :: 0 <= k < |a| && a[k].tgt == j
  {
    if a == [] then false
    else a[0].tgt == j || TargetIndexIsAligned(a[1..], j)
  }

  /** The target positions linked to source position `i`, in the order the links are listed. */
  function F2E(a: Alignment, i: nat): (r: seq<nat>)
    ensures |r| <= |a|
    ensures forall x :: x in r <==> Link(i, x) in a
    ensures forall j :: 0 <= j < |r| ==> Link(i, r[j]) in a
  {
    if a == [] then []
    else (if a[0].src == i then [a[0].tgt] else []) + F2E(a[1..], i)
  }

  /** The source positions linked to target position `j`, in the order the links are listed. */
  function E2F(a: Alignment, j: nat): (r: seq<nat>)
    ensures |r| <= |a|
    ensures forall x :: x in r <==> Link(x, j) in a
    ensures forall k :: 0 <= k < |r| ==> Link(r[k], j) in a
  {
    if a == [] then []
    else (if a[0].tgt == j then [a[0].src] else []) + E2F(a[1..], j)
  }

  /** The same alignment seen from the other side: every link `s-t` becomes `t-s`. */
  function Inverse(a: Alignment): (r: Alignment)
    ensures |r| == |a|
    ensures forall k :: 0 <= k < |a| ==> r[k] == Link(a[k].tgt, a[k].src)
  {
    if a == [] then [] else [Link(a[0].tgt, a[0].src)] + Inverse(a[1..])
  }

  /** A source position is aligned exactly when its link list is non-empty. */
  lemma {:induction false} AlignedIffF2ENonEmpty(a: Alignment, i: nat)
    ensures SourceIndexIsAligned(a, i) <==> |F2E(a, i)| > 0
  {
    if a != [] {
      AlignedIffF2ENonEmpty(a[1..], i);
    }
  }

  lemma {:induction false} AlignedIffE2FNonEmpty(a: Alignment, j: nat)
    ensures TargetIndexIsAligned(a, j) <==> |E2F(a, j)| > 0
  {
    if a != [] {
      AlignedIffE2FNonEmpty(a[1..], j);
    }
  }

  /** Reading the alignment from the target side is reading its inverse from the source side. */
  lemma {:induction false} E2FIsF2EOfInverse(a: Alignment, j: nat)
    ensures E2F(a, j) == F2E(Inverse(a), j)
    ensures TargetIndexIsAligned(a, j) == SourceIndexIsAligned(Inverse(a), j)
  {
    if a != [] {
      E2FIsF2EOfInverse(a[1..], j);
      assert Inverse(a)[1..] == Inverse(a[1..]);
    }
  }

  lemma {:induction false} InverseInverse(a: Alignment)
    ensures Inverse(Inverse(a)) == a
  {
    if a != [] {
      InverseInverse(a[1..]);
      assert Inverse(a)[1..] == Inverse(a[1..]);
    }
  }

  // ---------------------------------------------------------------------
  // The textual form "s-t s-t ...": pairs of decimal numbers separated by
  // blanks. A string that is not of that form is rejected with None.
  // ---------------------------------------------------------------------

  predicate IsDigit(c: char) { '0' <= c <= '9' }

  function DigitChar(d: nat): (c: char)
    requires d < 10
    ensures IsDigit(c)
  {
    ('0' as int + d) as char
  }

  /** The decimal value of a non-empty string of digits. */
  function ParseNat(s: string): (r: Option<nat>)
    ensures r.Some? <==> s != [] && forall k :: 0 <= k < |s| ==> IsDigit(s[k])
    decreases |s|
  {
    if s == [] || !IsDigit(s[|s| - 1]) then None
    else if |s| == 1 then Some(s[0] as int - '0' as int)
    else match ParseNat(s[..|s| - 1])
      case None => None
      case Some(v) => Some(v * 10 + (s[|s| - 1] as int - '0' as int))
  }

  /** The shortest decimal spelling of `n`. */
  function NatToString(n: nat): (s: string)
    ensures s != [] && forall k :: 0 <= k < |s| ==> IsDigit(s[k])
  {
    if n < 10 then [DigitChar(n)] else NatToString(n / 10) + [DigitChar(n % 10)]
  }

  lemma {:induction false} ParseNatToString(n: nat)
    ensures ParseNat(NatToString(n)) == Some(n)
  {
    if n >= 10 {
      var s := NatToString(n);
      assert s[..|s| - 1] == NatToString(n / 10);
      ParseNatToString(n / 10);
    }
  }

  /** Splitting on every occurrence of `sep`; unlike Java's `split`, it keeps every empty piece, trailing ones included. */
  function Split(s: string, sep: char): (r: seq<string>)
    ensures |r| >= 1
    decreases |s|
  {
    if s == [] then [""]
    else
      var rest := Split(s[1..], sep);
      if s[0] == sep then [""] + rest else [[s[0]] + rest[0]] + rest[1..]
  }

  /** The pieces joined back together with one `sep` between neighbours. */
  function Join(ws: seq<string>, sep: char): string
    requires |ws| >= 1
    decreases |ws|
  {
    if |ws| == 1 then ws[0] else ws[0] + [sep] + Join(ws[1..], sep)
  }

  function NonEmpty(ws: seq<string>): (r: seq<string>)
    ensures forall k :: 0 <= k < |r| ==> r[k] != []
  {
    if ws == [] then []
    else (if ws[0] == [] then [] else [ws[0]]) + NonEmpty(ws[1..])
  }

  /** The position of the first `c` in `s`, or `|s|` if there is none. */
  function IndexOf(s: string, c: char): (k: nat)
    ensures k <= |s|
    ensures forall m :: 0 <= m < k ==> s[m] != c
    ensures k < |s| ==> s[k] == c
  {
    if s == [] then 0 else if s[0] == c then 0 else 1 + IndexOf(s[1..], c)
  }

  /** One pair "s-t". */
  function ParseLink(w: string): Option<Link>
  {
    var k := IndexOf(w, '-');
    if k == |w| then None
    else match (ParseNat(w[..k]), ParseNat(w[k + 1..]))
      case (Some(s), Some(t)) => Some(Link(s, t))
      case _ => None
  }

  function ParseLinks(ws: seq<string>): (r: Option<Alignment>)
    ensures r.Some? <==> forall k :: 0 <= k < |ws| ==> ParseLink(ws[k]).Some?
    ensures r.Some? ==> |r.value| == |ws|
    ensures r.Some? ==> forall k :: 0 <= k < |ws| ==> ParseLink(ws[k]) == Some(r.value[k])
  {
    if ws == [] then Some([])
    else match (ParseLink(ws[0]), ParseLinks(ws[1..]))
      case (Some(l), Some(rest)) => Some([l] + rest)
      case _ => None
  }

  /** `ArrayAlignment.fromString(s, false)`: blank-separated "s-t" pairs, first number the source index. */
  function FromString(s: string): (r: Option<Alignment>)
    ensures r.Some? <==> forall w :: w in NonEmpty(Split(s, ' ')) ==> ParseLink(w).Some?
    ensures r.Some? ==> |r.value| == |NonEmpty(Split(s, ' '))|
    ensures r.Some? ==> forall k :: 0 <= k < |r.value| ==> ParseLink(NonEmpty(Split(s, ' '))[k]) == Some(r.value[k])
  {
    ParseLinks(NonEmpty(Split(s, ' ')))
  }

  function LinkToString(l: Link): string
  {
    NatToString(l.src) + "-" + NatToString(l.tgt)
  }

  function LinkStrings(a: Alignment): (r: seq<string>)
    ensures |r| == |a|
    ensures forall k :: 0 <= k < |a| ==> r[k] == LinkToString(a[k])
  {
    if a == [] then [] else [LinkToString(a[0])] + LinkStrings(a[1..])
  }

  /** The canonical text of an alignment: its pairs, one blank apart. */
  function ToString(a: Alignment): string
  {
    if a == [] then "" else Join(LinkStrings(a), ' ')
  }

  // ----- the round trip FromString(ToString(a)) == Some(a) -----

  lemma {:induction false} SplitNoSep(w: string, sep: char)
    requires forall k :: 0 <= k < |w| ==> w[k] != sep
    ensures Split(w, sep) == [w]
    decreases |w|
  {
    if w != [] {
      SplitNoSep(w[1..], sep);
      assert [w[0]] + w[1..] == w;
    }
  }

  lemma {:induction false} SplitPrefix(w: string, sep: char, t: string)
    requires forall k :: 0 <= k < |w| ==> w[k] != sep
    ensures Split(w + [sep] + t, sep) == [w] + Split(t, sep)
    decreases |w|
  {
    if w == [] {
      assert w + [sep] + t == [sep] + t;
      assert ([sep] + t)[1..] == t;
    } else {
      SplitPrefix(w[1..], sep, t);
      assert (w + [sep] + t)[1..] == w[1..] + [sep] + t;
      assert [w[0]] + w[1..] == w;
    }
  }

  lemma {:induction false} SplitJoin(ws: seq<string>, sep: char)
    requires |ws| >= 1
    requires forall i, k :: 0 <= i < |ws| && 0 <= k < |ws[i]| ==> ws[i][k] != sep
    ensures Split(Join(ws, sep), sep) == ws
    decreases |ws|
  {
    if |ws| == 1 {
      SplitNoSep(ws[0], sep);
    } else {
      SplitJoin(ws[1..], sep);
      SplitPrefix(ws[0], sep, Join(ws[1..], sep));
    }
  }

  lemma {:induction false} NonEmptyIdentity(ws: seq<string>)
    requires forall k :: 0 <= k < |ws| ==> ws[k] != []
    ensures NonEmpty(ws) == ws
  {
    if ws != [] {
      NonEmptyIdentity(ws[1..]);
    }
  }

  lemma ParseLinkToString(l: Link)
    ensures ParseLink(LinkToString(l)) == Some(l)
  {
    var a, b := NatToString(l.src), NatToString(l.tgt);
    var w := a + "-" + b;
    assert forall m :: 0 <= m < |a| ==> w[m] == a[m] && w[m] != '-';
    assert w[|a|] == '-';
    assert IndexOf(w, '-') == |a|;
    assert w[..|a|] == a;
    assert w[|a| + 1..] == b;
    ParseNatToString(l.src);
    ParseNatToString(l.tgt);
  }

  lemma {:induction false} ParseLinksRoundTrip(a: Alignment)
    ensures ParseLinks(LinkStrings(a)) == Some(a)
  {
    if a != [] {
      ParseLinkToString(a[0]);
      ParseLinksRoundTrip(a[1..]);
      var ws := LinkStrings(a);
      assert ws[0] == LinkToString(a[0]);
      assert ws[1..] == LinkStrings(a[1..]);
      assert [a[0]] + a[1..] == a;
    }
  }

  /** Printing an alignment and parsing it back gives the same alignment. */
  lemma FromStringToString(a: Alignment)
    ensures FromString(ToString(a)) == Some(a)
  {
    if a != [] {
      var ws := LinkStrings(a);
      forall i, k | 0 <= i < |ws| && 0 <= k < |ws[i]|
        ensures ws[i][k] != ' '
      {
        var x, y := NatToString(a[i].src), NatToString(a[i].tgt);
        assert ws[i] == x + "-" + y;
        if k < |x| { assert ws[i][k] == x[k]; }
        else if k > |x| { assert ws[i][k] == y[k - |x| - 1]; }
      }
      SplitJoin(ws, ' ');
      NonEmptyIdentity(ws);
      ParseLinksRoundTrip(a);
    }
  }

  // ----- the cases the alignment tests assert -----

  /** "0-0 2-2" reads as the links 0-0 and 2-2. */
  lemma ParseSparse()
    ensures FromString("0-0 2-2") == Some([Link(0, 0), Link(2, 2)])
  {
    var a := [Link(0, 0), Link(2, 2)];
    assert NatToString(0) == "0" && NatToString(2) == "2";
    assert LinkToString(a[0]) == "0-0" && LinkToString(a[1]) == "2-2";
    assert LinkStrings(a) == ["0-0", "2-2"];
    assert ToString(a) == "0-0 2-2";
    FromStringToString(a);
  }

  /** "0-0 1-2 77-32" reads as the links 0-0, 1-2 and 77-32. */
  lemma ParseWide()
    ensures FromString("0-0 1-2 77-32") == Some([Link(0, 0), Link(1, 2), Link(77, 32)])
  {
    var a := [Link(0, 0), Link(1, 2), Link(77, 32)];
    assert 77 / 10 == 7 && 77 % 10 == 7 && 32 / 10 == 3 && 32 % 10 == 2;
    assert NatToString(77) == "77";
    assert NatToString(32) == "32";
    assert NatToString(0) == "0" && NatToString(1) == "1" && NatToString(2) == "2";
    assert LinkToString(a[0]) == "0-0" && LinkToString(a[1]) == "1-2";
    assert LinkToString(a[2]) == "77-32";
    assert LinkStrings(a) == ["0-0", "1-2", "77-32"];
    assert ToString(a) == "0-0 1-2 77-32";
    FromStringToString(a);
  }

  /** Neither index 1 is aligned in "0-0 2-2", nor are the out-of-range indices -1 and 3. */
  lemma SparseAlignmentQueries()
    ensures var a := [Link(0, 0), Link(2, 2)];
      && FromString("0-0 2-2") == Some(a)
      && !SourceIndexIsAligned(a, 1) && !TargetIndexIsAligned(a, 1)
      && !SourceIndexIsAligned(a, -1) && !SourceIndexIsAligned(a, 3)
      && !TargetIndexIsAligned(a, -1) && !TargetIndexIsAligned(a, 3)
  {
    ParseSparse();
  }

  /** In "0-0 1-2 77-32" the source indices 0, 1, 77 and the target indices 0, 2, 32 are aligned. */
  lemma WideAlignmentQueries()
    ensures var a := [Link(0, 0), Link(1, 2), Link(77, 32)];
      && FromString("0-0 1-2 77-32") == Some(a)
      && SourceIndexIsAligned(a, 0) && SourceIndexIsAligned(a, 1) && SourceIndexIsAligned(a, 77)
      && TargetIndexIsAligned(a, 0) && TargetIndexIsAligned(a, 2) && TargetIndexIsAligned(a, 32)
  {
    ParseWide();
    var a := [Link(0, 0), Link(1, 2), Link(77, 32)];
    assert a[2].src == 77 && a[2].tgt == 32;
  }
}
