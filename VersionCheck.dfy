/**
 * The verdict of `checkForUpdate` once the remote version string is known: textually equal
 * strings mean no update; otherwise both strings are split on dots and the segments are
 * parsed and compared pair by pair, each pair only when the walk reaches it.
 */
module VersionCheck {
  import opened Wrappers
  import opened JavaText
  import opened VersionOrder

  /** How a run of the comparison ends: a returned boolean, or a NumberFormatException. */
  datatype CheckOutcome = Returned(updateNeeded: bool) | Raised

  /** Every overlapping pair of segments is a valid integer. */
  ghost predicate OverlapParses(local: seq<string>, remote: seq<string>)
  {
    forall i :: 0 <= i < |local| && i < |remote| ==> ParseInt(local[i]).Some? && ParseInt(remote[i]).Some?
  }

  /**
   * The for loop over the segment arrays: the first pair that differs decides, a segment that is
   * not an integer raises, and when every overlapping pair is equal the remote version is newer
   * exactly when it has more segments.
   */
  function CompareSegments(local: seq<string>, remote: seq<string>): (r: CheckOutcome)
    ensures OverlapParses(local, remote) ==> r.Returned?
  {
    if local == [] || remote == [] then Returned(|local| < |remote|)
    else
      match (ParseInt(local[0]), ParseInt(remote[0]))
      case (Some(a), Some(b)) =>
        if a > b then Returned(false)
        else if a < b then Returned(true)
        else
          assert OverlapParses(local, remote) ==> OverlapParses(local[1..], remote[1..]) by {
            if OverlapParses(local, remote) {
              forall i | 0 <= i < |local[1..]| && i < |remote[1..]|
                ensures ParseInt(local[1..][i]).Some? && ParseInt(remote[1..][i]).Some?
              {
                assert local[1..][i] == local[i + 1] && remote[1..][i] == remote[i + 1];
              }
            }
          }
          CompareSegments(local[1..], remote[1..])
      case _ => Raised
  }

  /** `checkForUpdate` from the line that compares the two strings on. */
  function Decide(local: string, remote: string): (r: CheckOutcome)
    ensures local == remote ==> r == Returned(false)
    ensures r.Raised? ==> !OverlapParses(Split(local), Split(remote))
  {
    if remote == local then Returned(false) else CompareSegments(Split(local), Split(remote))
  }

  /** Every segment parsed, or None when one of them is not an integer. */
  function ParseAll(segments: seq<string>): (r: Option<seq<int>>)
    ensures r.Some? <==> forall i :: 0 <= i < |segments| ==> ParseInt(segments[i]).Some?
    ensures r.Some? ==> |r.value| == |segments| &&
                        forall i :: 0 <= i < |segments| ==> r.value[i] == ParseInt(segments[i]).value
  {
    if segments == [] then Some([])
    else
      match (ParseInt(segments[0]), ParseAll(segments[1..]))
      case (Some(x), Some(xs)) =>
        assert forall i :: 1 <= i < |segments| ==> segments[i] == segments[1..][i - 1];
        Some([x] + xs)
      case (None, _) => None
      case (_, None) =>
        assert forall i :: 0 <= i < |segments[1..]| ==> segments[1..][i] == segments[i + 1];
        None
  }

  /** A version string all of whose dot-separated segments are 32-bit integers, and their values. */
  function ParseVersion(s: string): Option<seq<int>>
  {
    ParseAll(Split(s))
  }

  // ---------------------------------------------------------------- lemmas

  /** On segments that all parse, the loop decides exactly the version order. */
  lemma {:induction false} CompareSegmentsMatchesOrder(local: seq<string>, remote: seq<string>, l: seq<int>, r: seq<int>)
    requires ParseAll(local) == Some(l) && ParseAll(remote) == Some(r)
    ensures CompareSegments(local, remote) == Returned(Newer(l, r))
  {
    if local != [] && remote != [] {
      assert ParseInt(local[0]) == Some(l[0]) && ParseInt(remote[0]) == Some(r[0]);
      if l[0] == r[0] {
        var tl, tr := ParseAll(local[1..]), ParseAll(remote[1..]);
        assert tl.Some? && tr.Some?;
        assert tl.value == l[1..] && tr.value == r[1..];
        CompareSegmentsMatchesOrder(local[1..], remote[1..], l[1..], r[1..]);
      }
    }
  }

  /** For well-formed version strings the verdict is "update needed" exactly when the remote version is newer. */
  lemma DecideMatchesOrder(local: string, remote: string, l: seq<int>, r: seq<int>)
    requires ParseVersion(local) == Some(l) && ParseVersion(remote) == Some(r)
    ensures Decide(local, remote) == Returned(Newer(l, r))
  {
    if local == remote {
      NewerIrreflexive(l);
    } else {
      CompareSegmentsMatchesOrder(Split(local), Split(remote), l, r);
    }
  }

  /**
   * The first differing pair decides, whatever follows it: when the pairs up to index `j` parse,
   * those before `j` are equal and the pair at `j` differs, the later segments are never parsed
   * and the remote version is newer exactly when its segment `j` is larger.
   */
  lemma {:induction false} FirstDifferenceDecides(local: seq<string>, remote: seq<string>, j: nat)
    requires j < |local| && j < |remote|
    requires forall i :: 0 <= i <= j ==> ParseInt(local[i]).Some? && ParseInt(remote[i]).Some?
    requires forall i :: 0 <= i < j ==> ParseInt(local[i]) == ParseInt(remote[i])
    requires ParseInt(local[j]) != ParseInt(remote[j])
    ensures CompareSegments(local, remote) == Returned(ParseInt(local[j]).value < ParseInt(remote[j]).value)
  {
    assert ParseInt(local[0]).Some? && ParseInt(remote[0]).Some?;
    if j > 0 {
      var l, r := local[1..], remote[1..];
      forall i | 0 <= i <= j - 1
        ensures ParseInt(l[i]).Some? && ParseInt(r[i]).Some?
      {
        assert l[i] == local[i + 1] && r[i] == remote[i + 1];
      }
      forall i | 0 <= i < j - 1
        ensures ParseInt(l[i]) == ParseInt(r[i])
      {
        assert l[i] == local[i + 1] && r[i] == remote[i + 1];
      }
      assert l[j - 1] == local[j] && r[j - 1] == remote[j];
      FirstDifferenceDecides(l, r, j - 1);
    }
  }

  /**
   * When every overlapping pair parses to equal values, the remote version is newer exactly when
   * it has more segments (2.2 against 2.2.1), and an equal or greater local length means no update.
   */
  lemma {:induction false} EqualOverlapDecidesByLength(local: seq<string>, remote: seq<string>)
    requires forall i :: 0 <= i < |local| && i < |remote| ==>
      ParseInt(local[i]).Some? && ParseInt(local[i]) == ParseInt(remote[i])
    ensures CompareSegments(local, remote) == Returned(|local| < |remote|)
  {
    if local != [] && remote != [] {
      var l, r := local[1..], remote[1..];
      forall i | 0 <= i < |l| && i < |r|
        ensures ParseInt(l[i]).Some? && ParseInt(l[i]) == ParseInt(r[i])
      {
        assert l[i] == local[i + 1] && r[i] == remote[i + 1];
      }
      EqualOverlapDecidesByLength(l, r);
    }
  }

  /** An error depends only on which pairs are parsed, and an update one way is no update the other way. */
  lemma {:induction false} CompareSegmentsSwap(local: seq<string>, remote: seq<string>)
    ensures CompareSegments(local, remote).Raised? <==> CompareSegments(remote, local).Raised?
    ensures CompareSegments(local, remote) == Returned(true) ==> CompareSegments(remote, local) == Returned(false)
  {
    if local != [] && remote != [] {
      CompareSegmentsSwap(local[1..], remote[1..]);
    }
  }

  /**
   * If checking `remote` against `local` finds an update, checking `local` against `remote` does not,
   * for any two strings, numeric or not.
   */
  lemma DecideAntisymmetric(a: string, b: string)
    ensures Decide(a, b) == Returned(true) ==> Decide(b, a) == Returned(false)
    ensures Decide(a, b).Raised? <==> Decide(b, a).Raised?
  {
    CompareSegmentsSwap(Split(a), Split(b));
  }

  /** No version string, numeric or not, is an update over itself. */
  lemma DecideIrreflexive(v: string)
    ensures Decide(v, v) == Returned(false)
  {
  }

  /** The examples of the class comment: 2.0, 1.2 and 1.1.1 are all newer than 1.1. */
  lemma DocumentedExamples()
    ensures Decide("1.1", "2.0") == Returned(true)
    ensures Decide("1.1", "1.2") == Returned(true)
    ensures Decide("1.1", "1.1.1") == Returned(true)
  {
    NewerMajorExample();
    NewerMinorExample();
    NewerPatchExample();
  }

  lemma NewerMajorExample()
    ensures Decide("1.1", "2.0") == Returned(true)
  {
    SplitPair("1.1", "1", "1");
    SplitPair("2.0", "2", "0");
    assert ParseInt("1") == Some(1) && ParseInt("2") == Some(2);
    assert CompareSegments(["1", "1"], ["2", "0"]) == Returned(true);
  }

  lemma NewerMinorExample()
    ensures Decide("1.1", "1.2") == Returned(true)
  {
    SplitPair("1.1", "1", "1");
    SplitPair("1.2", "1", "2");
    assert ParseInt("1") == Some(1) && ParseInt("2") == Some(2);
    assert ["1", "1"][1..] == ["1"] && ["1", "2"][1..] == ["2"];
    assert CompareSegments(["1"], ["2"]) == Returned(true);
    assert CompareSegments(["1", "1"], ["1", "2"]) == Returned(true);
  }

  lemma NewerPatchExample()
    ensures Decide("1.1", "1.1.1") == Returned(true)
  {
    SplitPair("1.1", "1", "1");
    SplitTriple("1.1.1", "1", "1", "1");
    assert ParseInt("1") == Some(1);
    assert ["1", "1"][1..] == ["1"] && ["1", "1", "1"][1..] == ["1", "1"] && ["1"][1..] == [];
    assert CompareSegments(["1"], ["1", "1"]) == Returned(true);
    assert CompareSegments(["1", "1"], ["1", "1", "1"]) == Returned(true);
  }

  /**
   * A larger local segment means no update even when the remote version is longer (1.2 against
   * 1.1.1, 2.0 against 1.2), and so does an equal prefix with more local segments (1.2.0 against
   * 1.2); an equal prefix with more remote segments is an update (2.2 against 2.2.1).
   */
  lemma LengthAndOrderExamples()
    ensures Decide("1.2", "1.1.1") == Returned(false)
    ensures Decide("2.0", "1.2") == Returned(false)
    ensures Decide("1.2.0", "1.2") == Returned(false)
    ensures Decide("2.2", "2.2.1") == Returned(true)
  {
    LocalMinorLargerExample();
    LocalMajorLargerExample();
    LocalLongerExample();
    RemoteLongerExample();
  }

  lemma LocalMinorLargerExample()
    ensures Decide("1.2", "1.1.1") == Returned(false)
  {
    SplitPair("1.2", "1", "2");
    SplitTriple("1.1.1", "1", "1", "1");
    assert ParseInt("1") == Some(1) && ParseInt("2") == Some(2);
    assert ["1", "2"][1..] == ["2"] && ["1", "1", "1"][1..] == ["1", "1"];
    assert CompareSegments(["2"], ["1", "1"]) == Returned(false);
    assert CompareSegments(["1", "2"], ["1", "1", "1"]) == Returned(false);
  }

  lemma LocalMajorLargerExample()
    ensures Decide("2.0", "1.2") == Returned(false)
  {
    SplitPair("2.0", "2", "0");
    SplitPair("1.2", "1", "2");
    assert ParseInt("1") == Some(1) && ParseInt("2") == Some(2);
    assert CompareSegments(["2", "0"], ["1", "2"]) == Returned(false);
  }

  lemma LocalLongerExample()
    ensures Decide("1.2.0", "1.2") == Returned(false)
  {
    SplitTriple("1.2.0", "1", "2", "0");
    SplitPair("1.2", "1", "2");
    assert ParseInt("1") == Some(1) && ParseInt("2") == Some(2);
    assert ["1", "2", "0"][1..] == ["2", "0"] && ["2", "0"][1..] == ["0"];
    assert ["1", "2"][1..] == ["2"] && ["2"][1..] == [];
    assert CompareSegments(["0"], []) == Returned(false);
    assert CompareSegments(["2", "0"], ["2"]) == Returned(false);
    assert CompareSegments(["1", "2", "0"], ["1", "2"]) == Returned(false);
  }

  lemma RemoteLongerExample()
    ensures Decide("2.2", "2.2.1") == Returned(true)
  {
    SplitPair("2.2", "2", "2");
    SplitTriple("2.2.1", "2", "2", "1");
    assert ParseInt("2") == Some(2);
    assert ["2", "2", "1"][1..] == ["2", "1"] && ["2", "1"][1..] == ["1"];
    assert ["2", "2"][1..] == ["2"] && ["2"][1..] == [];
    assert CompareSegments([], ["1"]) == Returned(true);
    assert CompareSegments(["2"], ["2", "1"]) == Returned(true);
    assert CompareSegments(["2", "2"], ["2", "2", "1"]) == Returned(true);
  }

  /**
   * Segments are parsed only as the walk reaches them: a decision at the first segment hides
   * later non-numeric ones, while a non-numeric segment that is reached raises.
   */
  lemma LazyParsingExamples()
    ensures Decide("1.x", "2.y") == Returned(true)
    ensures Decide("1.0-SNAPSHOT", "1.0") == Raised
  {
    EarlyDecisionExample();
    ReachedNonNumericExample();
  }

  lemma EarlyDecisionExample()
    ensures Decide("1.x", "2.y") == Returned(true)
  {
    SplitPair("1.x", "1", "x");
    SplitPair("2.y", "2", "y");
    assert ParseInt("1") == Some(1) && ParseInt("2") == Some(2);
    assert CompareSegments(["1", "x"], ["2", "y"]) == Returned(true);
  }

  lemma ReachedNonNumericExample()
    ensures Decide("1.0-SNAPSHOT", "1.0") == Raised
  {
    assert CompareSegments(["1", "0-SNAPSHOT"], ["1", "0"]) == Raised by {
      assert ParseInt("0-SNAPSHOT") == None by {
        assert !IsDigit("0-SNAPSHOT"[1]);
      }
      assert ParseInt("1") == Some(1);
      assert ["1", "0-SNAPSHOT"][1..] == ["0-SNAPSHOT"] && ["1", "0"][1..] == ["0"];
      assert CompareSegments(["0-SNAPSHOT"], ["0"]) == Raised;
    }
    SplitPair("1.0-SNAPSHOT", "1", "0-SNAPSHOT");
    SplitPair("1.0", "1", "0");
  }

  lemma SplitPair(s: string, a: string, b: string)
    requires a != "" && b != "" && '.' !in a && '.' !in b && s == a + "." + b
    ensures Split(s) == [a, b]
  {
    JoinSplit([a, b]);
  }

  lemma SplitTriple(s: string, a: string, b: string, c: string)
    requires a != "" && b != "" && c != "" && '.' !in a && '.' !in b && '.' !in c && s == a + "." + b + "." + c
    ensures Split(s) == [a, b, c]
  {
    JoinSplit([a, b, c]);
    assert [a, b, c][1..] == [b, c] && [b, c][1..] == [c];
    assert Join([b, c]) == b + "." + c;
    assert Join([a, b, c]) == a + "." + (b + "." + c) == a + "." + b + "." + c;
  }
}
