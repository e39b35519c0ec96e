/** Best aspect ratio from the fixed catalog (`FindBestAspectRatio` in
    internal/imageproc/detect.go, duplicated as `findBestAspectRatio` in main.go).

    Each catalog entry is tried in order; it is eligible when cutting the image down to
    that ratio's target loses at most `tolerance` pixels on each axis. The eligible entry
    with the smallest total loss wins; the strict `<` keeps the earliest entry on a tie.
    With nothing eligible the result is the zero ratio. */
module Detect {
  import opened Options
  import opened Geometry

  /** The ratios tried, in the order tried. */
  const Catalog: seq<Ratio> :=
    [Ratio(1, 1), Ratio(4, 3), Ratio(4, 5), Ratio(3, 2), Ratio(16, 9), Ratio(21, 9), Ratio(9, 16)]

  /** The sentinel for "no ratio within tolerance". */
  const NoMatch: Ratio := Ratio(0, 0)

  lemma CatalogShape()
    ensures |Catalog| == 7
    ensures forall i :: 0 <= i < |Catalog| ==> Catalog[i].Positive()
    ensures forall i, j :: 0 <= i < j < |Catalog| ==> Catalog[i] != Catalog[j]
  {
  }

  /** Pixels removed from the width and from the height when cutting `d` to ratio `q`. */
  function WidthDiff(d: Dims, q: Ratio): nat
    requires q.Positive()
  {
    d.width - CalculateTargetDimensions(d, q).width
  }

  function HeightDiff(d: Dims, q: Ratio): nat
    requires q.Positive()
  {
    d.height - CalculateTargetDimensions(d, q).height
  }

  /** Both differences within the tolerance. */
  predicate Eligible(d: Dims, tolerance: int, q: Ratio)
    requires q.Positive()
  {
    WidthDiff(d, q) <= tolerance && HeightDiff(d, q) <= tolerance
  }

  /** The quantity minimised: `|widthDiff| + |heightDiff|`. */
  function TotalDiff(d: Dims, q: Ratio): nat
    requires q.Positive()
  {
    WidthDiff(d, q) + HeightDiff(d, q)
  }

  /** What the loop body learns about one entry: whether it is eligible, and its total. */
  datatype Candidate = Candidate(eligible: bool, total: nat)

  function Assess(d: Dims, tolerance: int, q: Ratio): (c: Candidate)
    requires q.Positive()
  {
    Candidate(Eligible(d, tolerance, q), TotalDiff(d, q))
  }

  /** The assessment of every catalog entry, in catalog order. */
  function Candidates(d: Dims, tolerance: int): (cs: seq<Candidate>)
    ensures |cs| == |Catalog|
    ensures forall i :: 0 <= i < |cs| ==> Catalog[i].Positive() && cs[i] == Assess(d, tolerance, Catalog[i])
  {
    seq(|Catalog|, i requires 0 <= i < |Catalog| => Assess(d, tolerance, Catalog[i]))
  }

  /** Reference definition of the winner: entry `i` is eligible, no eligible entry has a
      smaller total, and every earlier eligible entry has a strictly larger total. */
  predicate IsBest(cs: seq<Candidate>, i: nat)
  {
    && i < |cs|
    && cs[i].eligible
    && (forall j :: 0 <= j < |cs| && cs[j].eligible ==> cs[i].total <= cs[j].total)
    && (forall j :: 0 <= j < i && cs[j].eligible ==> cs[i].total < cs[j].total)
  }

  /** The loop over the first `k` entries: the index held in `bestRatio` after `k` rounds,
      `None` while `minDiff` is still its `MaxFloat64` start value. */
  function Scan(cs: seq<Candidate>, k: nat): (best: Option<nat>)
    requires k <= |cs|
    ensures best.None? <==> forall j :: 0 <= j < k ==> !cs[j].eligible
    ensures best.Some? ==> IsBest(cs[..k], best.value)
  {
    if k == 0 then None
    else
      var prev := Scan(cs, k - 1);
      assert forall j :: 0 <= j < k - 1 ==> cs[..k][j] == cs[..k - 1][j];
      if cs[k - 1].eligible && (prev.None? || cs[k - 1].total < cs[prev.value].total)
      then Some(k - 1)
      else prev
  }

  /** Index of the winning entry, if any. */
  function BestIndex(d: Dims, tolerance: int): (b: Option<nat>)
    ensures b.None? <==> forall i :: 0 <= i < |Catalog| ==> !Candidates(d, tolerance)[i].eligible
    ensures b.Some? ==> IsBest(Candidates(d, tolerance), b.value)
  {
    var cs := Candidates(d, tolerance);
    assert cs[..|cs|] == cs;
    Scan(cs, |cs|)
  }

  /** The chosen ratio, or `NoMatch`. */
  function FindBestAspectRatio(d: Dims, tolerance: int): (r: Ratio)
    ensures r == NoMatch <==> forall i :: 0 <= i < |Catalog| ==> !Eligible(d, tolerance, Catalog[i])
    ensures r != NoMatch ==> r in Catalog && r.Positive() && Eligible(d, tolerance, r)
  {
    match BestIndex(d, tolerance)
    case None => NoMatch
    case Some(i) => Catalog[i]
  }

  /** The reference definition picks at most one entry. */
  lemma IsBestUnique(cs: seq<Candidate>, i: nat, j: nat)
    requires IsBest(cs, i) && IsBest(cs, j)
    ensures i == j
  {
  }

  /** The search agrees with the reference definition in both directions. */
  lemma FindBestMatchesReference(d: Dims, tolerance: int, i: nat)
    requires i < |Catalog|
    ensures FindBestAspectRatio(d, tolerance) == Catalog[i] <==> IsBest(Candidates(d, tolerance), i)
  {
    var b := BestIndex(d, tolerance);
    var cs := Candidates(d, tolerance);
    CatalogShape();
    if b.Some? {
      if Catalog[b.value] == Catalog[i] {
        assert b.value == i;
      }
      if IsBest(cs, i) {
        IsBestUnique(cs, i, b.value);
      }
    } else {
      assert !IsBest(cs, i);
    }
  }

  /** Differences are never negative, so a negative tolerance admits nothing. */
  lemma NegativeToleranceNoMatch(d: Dims, tolerance: int)
    requires tolerance < 0
    ensures FindBestAspectRatio(d, tolerance) == NoMatch
  {
  }

  /** An image exactly in the ratio of entry i, and in that of no earlier entry, loses
      nothing at i and something at every earlier entry, so entry i wins under any
      non-negative tolerance. */
  lemma ExactFitWinsEarliest(d: Dims, tolerance: int, i: nat)
    requires tolerance >= 0 && i < |Catalog|
    requires d.width * Catalog[i].h == d.height * Catalog[i].w
    requires forall j :: 0 <= j < i ==> d.width * Catalog[j].h != d.height * Catalog[j].w
    ensures FindBestAspectRatio(d, tolerance) == Catalog[i]
  {
    CatalogShape();
    ExactRatioKept(d, Catalog[i]);
    forall j | 0 <= j < i
      ensures TotalDiff(d, Catalog[j]) > 0
    {
      var t := CalculateTargetDimensions(d, Catalog[j]);
      if t == d {
        assert false;
      }
    }
    var cs := Candidates(d, tolerance);
    assert IsBest(cs, i);
    FindBestMatchesReference(d, tolerance, i);
  }

  /** The cases of `TestFindBestAspectRatio`. For each image: which catalog entries are
      eligible and, where two compete, their total losses; then the winner. */
  lemma AssessedExact1920x1080()
    ensures !Candidates(Dims(1920, 1080), 1)[0].eligible
    ensures !Candidates(Dims(1920, 1080), 1)[1].eligible
    ensures !Candidates(Dims(1920, 1080), 1)[2].eligible
    ensures !Candidates(Dims(1920, 1080), 1)[3].eligible
    ensures !Candidates(Dims(1920, 1080), 1)[5].eligible
    ensures !Candidates(Dims(1920, 1080), 1)[6].eligible
    ensures Candidates(Dims(1920, 1080), 1)[4].eligible
  {
    var d := Dims(1920, 1080);
    var tol := 1;
    var cs := Candidates(d, tol);
    assert !cs[0].eligible by { assert CalculateTargetDimensions(d, Ratio(1, 1)) == Dims(1080, 1080); }
    assert !cs[1].eligible by { assert CalculateTargetDimensions(d, Ratio(4, 3)) == Dims(1440, 1080); }
    assert !cs[2].eligible by { assert CalculateTargetDimensions(d, Ratio(4, 5)) == Dims(864, 1080); }
    assert !cs[3].eligible by { assert CalculateTargetDimensions(d, Ratio(3, 2)) == Dims(1620, 1080); }
    assert !cs[5].eligible by { assert CalculateTargetDimensions(d, Ratio(21, 9)) == Dims(1920, 822); }
    assert !cs[6].eligible by { assert CalculateTargetDimensions(d, Ratio(9, 16)) == Dims(607, 1080); }
    assert cs[4].eligible by { assert CalculateTargetDimensions(d, Ratio(16, 9)) == Dims(1920, 1080); }
  }

  lemma FindBestExact1920x1080()
    ensures FindBestAspectRatio(Dims(1920, 1080), 1) == Ratio(16, 9)
  {
    AssessedExact1920x1080();
    assert IsBest(Candidates(Dims(1920, 1080), 1), 4);
    FindBestMatchesReference(Dims(1920, 1080), 1, 4);
  }

  lemma AssessedSlightlyOff1280x853()
    ensures !Candidates(Dims(1280, 853), 100)[0].eligible
    ensures !Candidates(Dims(1280, 853), 100)[1].eligible
    ensures !Candidates(Dims(1280, 853), 100)[2].eligible
    ensures !Candidates(Dims(1280, 853), 100)[4].eligible
    ensures !Candidates(Dims(1280, 853), 100)[5].eligible
    ensures !Candidates(Dims(1280, 853), 100)[6].eligible
    ensures Candidates(Dims(1280, 853), 100)[3].eligible
  {
    var d := Dims(1280, 853);
    var tol := 100;
    var cs := Candidates(d, tol);
    assert !cs[0].eligible by { assert CalculateTargetDimensions(d, Ratio(1, 1)) == Dims(853, 853); }
    assert !cs[1].eligible by { assert CalculateTargetDimensions(d, Ratio(4, 3)) == Dims(1137, 853); }
    assert !cs[2].eligible by { assert CalculateTargetDimensions(d, Ratio(4, 5)) == Dims(682, 853); }
    assert !cs[4].eligible by { assert CalculateTargetDimensions(d, Ratio(16, 9)) == Dims(1280, 720); }
    assert !cs[5].eligible by { assert CalculateTargetDimensions(d, Ratio(21, 9)) == Dims(1280, 548); }
    assert !cs[6].eligible by { assert CalculateTargetDimensions(d, Ratio(9, 16)) == Dims(479, 853); }
    assert cs[3].eligible by { assert CalculateTargetDimensions(d, Ratio(3, 2)) == Dims(1279, 853); }
  }

  lemma FindBestSlightlyOff1280x853()
    ensures FindBestAspectRatio(Dims(1280, 853), 100) == Ratio(3, 2)
  {
    AssessedSlightlyOff1280x853();
    assert IsBest(Candidates(Dims(1280, 853), 100), 3);
    FindBestMatchesReference(Dims(1280, 853), 100, 3);
  }

  lemma AssessedSlightlyOff1271x799()
    ensures !Candidates(Dims(1271, 799), 100)[0].eligible
    ensures !Candidates(Dims(1271, 799), 100)[1].eligible
    ensures !Candidates(Dims(1271, 799), 100)[2].eligible
    ensures !Candidates(Dims(1271, 799), 100)[5].eligible
    ensures !Candidates(Dims(1271, 799), 100)[6].eligible
    ensures Candidates(Dims(1271, 799), 100)[3] == Candidate(true, 73)
    ensures Candidates(Dims(1271, 799), 100)[4] == Candidate(true, 85)
  {
    var d := Dims(1271, 799);
    var tol := 100;
    var cs := Candidates(d, tol);
    assert !cs[0].eligible by { assert CalculateTargetDimensions(d, Ratio(1, 1)) == Dims(799, 799); }
    assert !cs[1].eligible by { assert CalculateTargetDimensions(d, Ratio(4, 3)) == Dims(1065, 799); }
    assert !cs[2].eligible by { assert CalculateTargetDimensions(d, Ratio(4, 5)) == Dims(639, 799); }
    assert !cs[5].eligible by { assert CalculateTargetDimensions(d, Ratio(21, 9)) == Dims(1271, 544); }
    assert !cs[6].eligible by { assert CalculateTargetDimensions(d, Ratio(9, 16)) == Dims(449, 799); }
    assert cs[3] == Candidate(true, 73) by { assert CalculateTargetDimensions(d, Ratio(3, 2)) == Dims(1198, 799); }
    assert cs[4] == Candidate(true, 85) by { assert CalculateTargetDimensions(d, Ratio(16, 9)) == Dims(1271, 714); }
  }

  lemma FindBestSlightlyOff1271x799()
    ensures FindBestAspectRatio(Dims(1271, 799), 100) == Ratio(3, 2)
  {
    AssessedSlightlyOff1271x799();
    assert IsBest(Candidates(Dims(1271, 799), 100), 3);
    FindBestMatchesReference(Dims(1271, 799), 100, 3);
  }

  lemma AssessedTooTight952x932()
    ensures !Candidates(Dims(952, 932), 5)[0].eligible
    ensures !Candidates(Dims(952, 932), 5)[1].eligible
    ensures !Candidates(Dims(952, 932), 5)[2].eligible
    ensures !Candidates(Dims(952, 932), 5)[3].eligible
    ensures !Candidates(Dims(952, 932), 5)[4].eligible
    ensures !Candidates(Dims(952, 932), 5)[5].eligible
    ensures !Candidates(Dims(952, 932), 5)[6].eligible
  {
    var d := Dims(952, 932);
    var tol := 5;
    var cs := Candidates(d, tol);
    assert !cs[0].eligible by { assert CalculateTargetDimensions(d, Ratio(1, 1)) == Dims(932, 932); }
    assert !cs[1].eligible by { assert CalculateTargetDimensions(d, Ratio(4, 3)) == Dims(952, 714); }
    assert !cs[2].eligible by { assert CalculateTargetDimensions(d, Ratio(4, 5)) == Dims(745, 932); }
    assert !cs[3].eligible by { assert CalculateTargetDimensions(d, Ratio(3, 2)) == Dims(952, 634); }
    assert !cs[4].eligible by { assert CalculateTargetDimensions(d, Ratio(16, 9)) == Dims(952, 535); }
    assert !cs[5].eligible by { assert CalculateTargetDimensions(d, Ratio(21, 9)) == Dims(952, 408); }
    assert !cs[6].eligible by { assert CalculateTargetDimensions(d, Ratio(9, 16)) == Dims(524, 932); }
  }

  lemma FindBestTooTight952x932()
    ensures FindBestAspectRatio(Dims(952, 932), 5) == NoMatch
  {
    AssessedTooTight952x932();
  }

  lemma AssessedNear4x3()
    ensures !Candidates(Dims(1023, 768), 20)[0].eligible
    ensures !Candidates(Dims(1023, 768), 20)[2].eligible
    ensures !Candidates(Dims(1023, 768), 20)[3].eligible
    ensures !Candidates(Dims(1023, 768), 20)[4].eligible
    ensures !Candidates(Dims(1023, 768), 20)[5].eligible
    ensures !Candidates(Dims(1023, 768), 20)[6].eligible
    ensures Candidates(Dims(1023, 768), 20)[1].eligible
  {
    var d := Dims(1023, 768);
    var tol := 20;
    var cs := Candidates(d, tol);
    assert !cs[0].eligible by { assert CalculateTargetDimensions(d, Ratio(1, 1)) == Dims(768, 768); }
    assert !cs[2].eligible by { assert CalculateTargetDimensions(d, Ratio(4, 5)) == Dims(614, 768); }
    assert !cs[3].eligible by { assert CalculateTargetDimensions(d, Ratio(3, 2)) == Dims(1023, 682); }
    assert !cs[4].eligible by { assert CalculateTargetDimensions(d, Ratio(16, 9)) == Dims(1023, 575); }
    assert !cs[5].eligible by { assert CalculateTargetDimensions(d, Ratio(21, 9)) == Dims(1023, 438); }
    assert !cs[6].eligible by { assert CalculateTargetDimensions(d, Ratio(9, 16)) == Dims(432, 768); }
    assert cs[1].eligible by { assert CalculateTargetDimensions(d, Ratio(4, 3)) == Dims(1023, 767); }
  }

  lemma FindBestNear4x3()
    ensures FindBestAspectRatio(Dims(1023, 768), 20) == Ratio(4, 3)
  {
    AssessedNear4x3();
    assert IsBest(Candidates(Dims(1023, 768), 20), 1);
    FindBestMatchesReference(Dims(1023, 768), 20, 1);
  }

  lemma AssessedNearlySquare()
    ensures !Candidates(Dims(1000, 1001), 5)[1].eligible
    ensures !Candidates(Dims(1000, 1001), 5)[2].eligible
    ensures !Candidates(Dims(1000, 1001), 5)[3].eligible
    ensures !Candidates(Dims(1000, 1001), 5)[4].eligible
    ensures !Candidates(Dims(1000, 1001), 5)[5].eligible
    ensures !Candidates(Dims(1000, 1001), 5)[6].eligible
    ensures Candidates(Dims(1000, 1001), 5)[0].eligible
  {
    var d := Dims(1000, 1001);
    var tol := 5;
    var cs := Candidates(d, tol);
    assert !cs[1].eligible by { assert CalculateTargetDimensions(d, Ratio(4, 3)) == Dims(1000, 750); }
    assert !cs[2].eligible by { assert CalculateTargetDimensions(d, Ratio(4, 5)) == Dims(800, 1001); }
    assert !cs[3].eligible by { assert CalculateTargetDimensions(d, Ratio(3, 2)) == Dims(1000, 666); }
    assert !cs[4].eligible by { assert CalculateTargetDimensions(d, Ratio(16, 9)) == Dims(1000, 562); }
    assert !cs[5].eligible by { assert CalculateTargetDimensions(d, Ratio(21, 9)) == Dims(1000, 428); }
    assert !cs[6].eligible by { assert CalculateTargetDimensions(d, Ratio(9, 16)) == Dims(563, 1001); }
    assert cs[0].eligible by { assert CalculateTargetDimensions(d, Ratio(1, 1)) == Dims(1000, 1000); }
  }

  lemma FindBestNearlySquare()
    ensures FindBestAspectRatio(Dims(1000, 1001), 5) == Ratio(1, 1)
  {
    AssessedNearlySquare();
    assert IsBest(Candidates(Dims(1000, 1001), 5), 0);
    FindBestMatchesReference(Dims(1000, 1001), 5, 0);
  }
}
