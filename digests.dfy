/**
 * The digest batch: which algorithms a run computes, in which order, and the
 * text it shows for each.
 *
 * The digest algorithms themselves belong to a third-party library; here a
 * digest is any function from an algorithm and the file's bytes to the bytes
 * the library's DoFinal writes.
 */
module Digests {
  import opened Wrappers
  import opened HexFormat

  /** The algorithms the window offers, each behind its own check box. */
  datatype Algorithm =
    | Blake2b | Blake2s | Dstu7564_256 | Dstu7564_384 | Dstu7564_512 | Gost3411
    | Keccak | Md2 | Md4 | Md5 | RipeMd128 | RipeMd160 | RipeMd256 | RipeMd320
    | Sha1 | Sha224 | Sha256 | Sha384 | Sha512 | Sha3 | Sm3 | Shake | Tiger | Whirlpool

  /** The order in which the calculation visits the check boxes. */
  const Table: seq<Algorithm> := [
    Blake2b, Blake2s, Dstu7564_256, Dstu7564_384, Dstu7564_512, Gost3411,
    Keccak, Md2, Md4, Md5, RipeMd128, RipeMd160, RipeMd256, RipeMd320,
    Sha1, Sha224, Sha256, Sha384, Sha512, Sha3, Sm3, Shake, Tiger, Whirlpool]

  /** The position of each algorithm's check box in the calculation. */
  function Position(a: Algorithm): nat {
    match a
    case Blake2b => 0 case Blake2s => 1 case Dstu7564_256 => 2 case Dstu7564_384 => 3
    case Dstu7564_512 => 4 case Gost3411 => 5 case Keccak => 6 case Md2 => 7
    case Md4 => 8 case Md5 => 9 case RipeMd128 => 10 case RipeMd160 => 11
    case RipeMd256 => 12 case RipeMd320 => 13 case Sha1 => 14 case Sha224 => 15
    case Sha256 => 16 case Sha384 => 17 case Sha512 => 18 case Sha3 => 19
    case Sm3 => 20 case Shake => 21 case Tiger => 22 case Whirlpool => 23
  }

  /** Every algorithm appears in the table exactly once, at its position. */
  lemma TableLists()
    ensures |Table| == 24
    ensures forall i :: 0 <= i < |Table| ==> Position(Table[i]) == i
    ensures forall a :: Position(a) < |Table| && Table[Position(a)] == a
  {
  }

  /** The algorithms of s whose boxes are checked, in the order of s. */
  function Keep(s: seq<Algorithm>, checked: set<Algorithm>): seq<Algorithm> {
    if s == [] then []
    else (if s[0] in checked then [s[0]] else []) + Keep(s[1..], checked)
  }

  /** Visiting one more check box extends the list by that algorithm when
      its box is checked. */
  lemma {:induction false} KeepSnoc(s: seq<Algorithm>, a: Algorithm, checked: set<Algorithm>)
    ensures Keep(s + [a], checked) == Keep(s, checked) + (if a in checked then [a] else [])
  {
    if s == [] {
      assert [] + [a] == [a];
      assert [a][1..] == [];
    } else {
      var head := if s[0] in checked then [s[0]] else [];
      var last := if a in checked then [a] else [];
      assert (s + [a])[0] == s[0];
      assert (s + [a])[1..] == s[1..] + [a];
      KeepSnoc(s[1..], a, checked);
      calc {
        Keep(s + [a], checked);
        head + Keep(s[1..] + [a], checked);
        head + (Keep(s[1..], checked) + last);
        (head + Keep(s[1..], checked)) + last;
        Keep(s, checked) + last;
      }
    }
  }

  /** The list of digests the calculation builds, one check box after another. */
  function Selected(checked: set<Algorithm>): seq<Algorithm> {
    Keep(Table, checked)
  }

  predicate InOrder(s: seq<Algorithm>) {
    forall i, j :: 0 <= i < j < |s| ==> Position(s[i]) < Position(s[j])
  }

  /** Keep keeps exactly the checked algorithms of s. */
  lemma {:induction false} KeepMembers(s: seq<Algorithm>, checked: set<Algorithm>)
    ensures forall a :: a in Keep(s, checked) <==> a in s && a in checked
  {
    if s != [] {
      KeepMembers(s[1..], checked);
      assert forall a :: a in s <==> a == s[0] || a in s[1..];
    }
  }

  /** Keep keeps the order of s. */
  lemma {:induction false} KeepOrder(s: seq<Algorithm>, checked: set<Algorithm>)
    requires InOrder(s)
    ensures InOrder(Keep(s, checked))
  {
    if s != [] {
      var tail := s[1..];
      assert InOrder(tail) by {
        forall i, j | 0 <= i < j < |tail| ensures Position(tail[i]) < Position(tail[j]) {
          assert tail[i] == s[i + 1] && tail[j] == s[j + 1];
        }
      }
      KeepOrder(tail, checked);
      if s[0] in checked {
        var rest := Keep(tail, checked);
        KeepMembers(tail, checked);
        forall a | a in rest ensures Position(s[0]) < Position(a) {
          var k :| 0 <= k < |tail| && tail[k] == a;
          assert tail[k] == s[k + 1];
        }
        ConsInOrder(s[0], rest);
      }
    }
  }

  lemma ConsInOrder(a: Algorithm, rest: seq<Algorithm>)
    requires InOrder(rest)
    requires forall b :: b in rest ==> Position(a) < Position(b)
    ensures InOrder([a] + rest)
  {
    var kept := [a] + rest;
    forall i, j | 0 <= i < j < |kept| ensures Position(kept[i]) < Position(kept[j]) {
      assert kept[j] == rest[j - 1];
      if i > 0 {
        assert kept[i] == rest[i - 1];
      } else {
        assert kept[j] in rest;
      }
    }
  }

  /** The calculation computes exactly the checked algorithms, each once, in
      the order of the check boxes. */
  lemma SelectedSpec(checked: set<Algorithm>)
    ensures forall a :: a in Selected(checked) <==> a in checked
    ensures InOrder(Selected(checked))
    ensures forall i, j :: 0 <= i < j < |Selected(checked)| ==> Selected(checked)[i] != Selected(checked)[j]
  {
    TableLists();
    forall a ensures a in Table {
      assert Table[Position(a)] == a;
    }
    KeepMembers(Table, checked);
    KeepOrder(Table, checked);
  }

  /** The text a run shows for each checked algorithm: the hex form of its
      digest of the file's bytes. */
  function Results(checked: set<Algorithm>, data: seq<byte>, digest: (Algorithm, seq<byte>) -> seq<byte>,
                   upper: bool): map<Algorithm, string>
  {
    map a | a in checked :: Hex(digest(a, data), upper)
  }

  /** The result boxes after the digests of list, in order, have been shown
      in them. */
  function Display(boxes: map<Algorithm, string>, list: seq<Algorithm>, data: seq<byte>,
                   digest: (Algorithm, seq<byte>) -> seq<byte>, upper: bool): map<Algorithm, string>
  {
    if list == [] then boxes
    else Display(boxes, list[..|list| - 1], data, digest, upper)[list[|list| - 1] := Hex(digest(list[|list| - 1], data), upper)]
  }

  /** Showing a list of digests fills the box of each algorithm on the list
      with its digest's text and leaves every other box as it was. */
  lemma {:induction false} DisplaySpec(boxes: map<Algorithm, string>, list: seq<Algorithm>, data: seq<byte>,
                                       digest: (Algorithm, seq<byte>) -> seq<byte>, upper: bool, a: Algorithm)
    ensures a in Display(boxes, list, data, digest, upper) <==> a in boxes || a in list
    ensures a in list ==> Display(boxes, list, data, digest, upper)[a] == Hex(digest(a, data), upper)
    ensures a !in list && a in boxes ==> Display(boxes, list, data, digest, upper)[a] == boxes[a]
    decreases |list|
  {
    if list != [] {
      var init := list[..|list| - 1];
      assert list == init + [list[|list| - 1]];
      DisplaySpec(boxes, init, data, digest, upper, a);
    }
  }

  /** Showing the batch of the checked algorithms overlays their texts on the
      boxes. */
  lemma DisplayBatch(boxes: map<Algorithm, string>, checked: set<Algorithm>, data: seq<byte>,
                     digest: (Algorithm, seq<byte>) -> seq<byte>, upper: bool)
    ensures Display(boxes, Selected(checked), data, digest, upper) == boxes + Results(checked, data, digest, upper)
  {
    SelectedSpec(checked);
    var shown := Display(boxes, Selected(checked), data, digest, upper);
    var overlay := boxes + Results(checked, data, digest, upper);
    forall a ensures (a in shown <==> a in overlay) && (a in shown ==> shown[a] == overlay[a]) {
      DisplaySpec(boxes, Selected(checked), data, digest, upper, a);
    }
  }

  /** Each shown text is twice as long as its digest, uses only the digits of
      the toggle's alphabet, and decodes back to the digest; so when every
      digest of an algorithm has one fixed size, so does every text. */
  lemma ResultsSpec(checked: set<Algorithm>, data: seq<byte>, digest: (Algorithm, seq<byte>) -> seq<byte>,
                    upper: bool, size: Algorithm -> nat, a: Algorithm)
    requires a in checked
    requires forall b: Algorithm, d: seq<byte> :: |digest(b, d)| == size(b)
    ensures a in Results(checked, data, digest, upper)
    ensures |Results(checked, data, digest, upper)[a]| == 2 * size(a)
    ensures IsHexText(Results(checked, data, digest, upper)[a], upper)
    ensures DecodeHex(Results(checked, data, digest, upper)[a]) == Some(digest(a, data))
  {
    HexAlphabet(digest(a, data), upper);
    DecodeHexRoundTrip(digest(a, data), upper);
  }
}
