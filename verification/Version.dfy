/**
 * The version comparator `compareVersion` of Util.js, over tags already split
 * into their parts (`vMAJOR.MINOR.PATCH[-LABEL[.N]]`).
 */
module Version {
  import opened Wrappers

  /**
   * A prerelease suffix: its label `name` and the number `index` after it; `None` stands
   * for a suffix without one, whose `parseInt` is NaN.
   */
  datatype Prerelease = Prerelease(name: string, index: Option<nat>)

  datatype Tag = Tag(major: nat, minor: nat, patch: nat, pre: Option<Prerelease>)

  /**
   * The comparator's result. It is a number in the usual case, but a boolean
   * when the numeric cores are equal and exactly one tag is a prerelease.
   */
  datatype Verdict = Rank(n: nat) | Flag(b: bool)

  /** A number as `parseInt` gives it: an integer or NaN. */
  datatype Num = Int(v: int) | NaN

  /** `>` on `parseInt` results; every comparison with NaN is false. */
  predicate Greater(x: Num, y: Num)
  {
    x.Int? && y.Int? && x.v > y.v
  }

  predicate Less(x: Num, y: Num)
  {
    x.Int? && y.Int? && x.v < y.v
  }

  /** `devStrToNum`: alpha, beta and rc rank 1, 2, 3; any other label ranks 0. */
  function DevStrToNum(devStr: string): (r: nat)
    ensures r <= 3
    ensures r == 0 <==> devStr !in {"alpha", "beta", "rc"}
  {
    match devStr
    case "alpha" => 1
    case "beta" => 2
    case "rc" => 3
    case _ => 0
  }

  function IndexNum(index: Option<nat>): Num
  {
    match index
    case Some(n) => Int(n)
    case None => NaN
  }

  /**
   * What the comparator answers, component by component: the first numeric
   * component where the tags differ decides (1, 2 or 3 when A is ahead, 0 when
   * behind); with equal cores only the prerelease suffixes are looked at.
   */
  function Compare(a: Tag, b: Tag): Verdict
  {
    if a.major != b.major then Rank(if a.major > b.major then 1 else 0)
    else if a.minor != b.minor then Rank(if a.minor > b.minor then 2 else 0)
    else if a.patch != b.patch then Rank(if a.patch > b.patch then 3 else 0)
    else
      match (a.pre, b.pre)
      case (None, None) => Rank(0)
      case (None, Some(_)) => Flag(true)
      case (Some(_), None) => Flag(false)
      case (Some(pa), Some(pb)) =>
        if DevStrToNum(pa.name) != DevStrToNum(pb.name) then
          Rank(if DevStrToNum(pa.name) > DevStrToNum(pb.name) then 4 else 0)
        else
          Rank(if Greater(IndexNum(pa.index), IndexNum(pb.index)) then 4 else 0)
  }

  /**
   * `compareVersion`: the loop over the three numeric components, then, with
   * equal cores, the prerelease branch with its own loop over (label, index)
   * after the label has been replaced by its rank.
   */
  method CompareVersion(taga: Tag, tagb: Tag) returns (r: Verdict)
    ensures r == Compare(taga, tagb)
  {
    var tagaDev := taga.pre.Some?;
    var tagbDev := tagb.pre.Some?;
    var tagaMain: seq<int> := [taga.major, taga.minor, taga.patch];
    var tagbMain: seq<int> := [tagb.major, tagb.minor, tagb.patch];

    var laterFlag: Option<nat> := None;
    var i := 0;
    while i < 3
      invariant 0 <= i <= 3
      invariant laterFlag.None?
      invariant forall k :: 0 <= k < i ==> tagaMain[k] == tagbMain[k]
    {
      if tagaMain[i] > tagbMain[i] {
        laterFlag := Some(i + 1);
        break;
      } else if tagaMain[i] < tagbMain[i] {
        laterFlag := Some(0);
        break;
      }
      i := i + 1;
    }

    if laterFlag.Some? {
      assert i < 3 && forall k :: 0 <= k < i ==> tagaMain[k] == tagbMain[k];
      assert i > 0 ==> tagaMain[0] == tagbMain[0];
      assert i > 1 ==> tagaMain[1] == tagbMain[1];
      return Rank(laterFlag.value);
    }
    assert tagaMain[0] == tagbMain[0] && tagaMain[1] == tagbMain[1] && tagaMain[2] == tagbMain[2];
    if tagbDev && !tagaDev {
      return Flag(true);
    } else if tagaDev && !tagbDev {
      return Flag(false);
    } else if tagaDev && tagbDev {
      var tagaDevArr: seq<Num> := [NaN, IndexNum(taga.pre.value.index)];
      var tagbDevArr: seq<Num> := [NaN, IndexNum(tagb.pre.value.index)];
      tagaDevArr := tagaDevArr[0 := Int(DevStrToNum(taga.pre.value.name))];
      tagbDevArr := tagbDevArr[0 := Int(DevStrToNum(tagb.pre.value.name))];
      var j := 0;
      while j < 2
        invariant 0 <= j <= 2
        invariant laterFlag.None?
        invariant forall k :: 0 <= k < j ==> !Greater(tagaDevArr[k], tagbDevArr[k]) && !Less(tagaDevArr[k], tagbDevArr[k])
      {
        if Greater(tagaDevArr[j], tagbDevArr[j]) {
          laterFlag := Some(4);
          break;
        } else if Less(tagaDevArr[j], tagbDevArr[j]) {
          laterFlag := Some(0);
          break;
        }
        j := j + 1;
      }
      assert tagaDevArr == [Int(DevStrToNum(taga.pre.value.name)), IndexNum(taga.pre.value.index)];
      assert tagbDevArr == [Int(DevStrToNum(tagb.pre.value.name)), IndexNum(tagb.pre.value.index)];
      assert j > 0 ==> !Greater(tagaDevArr[0], tagbDevArr[0]) && !Less(tagaDevArr[0], tagbDevArr[0]);
      if laterFlag.None? {
        assert j == 2;
        assert !Greater(tagaDevArr[1], tagbDevArr[1]);
        return Rank(0);
      }
      return Rank(laterFlag.value);
    } else {
      return Rank(0);
    }
  }

  /** A verdict that says A is newer: a positive rank, or the boolean `true`. */
  predicate IsNewer(r: Verdict)
  {
    (r.Rank? && r.n > 0) || r == Flag(true)
  }

  /**
   * Every verdict is a rank from 0 to 4 or a boolean; a boolean exactly for
   * equal cores with one prerelease, and 4 or 0 for equal cores with two.
   */
  lemma CompareRange(a: Tag, b: Tag)
    ensures Compare(a, b).Rank? ==> Compare(a, b).n <= 4
    ensures Compare(a, b).Flag? ==> Core(a) == Core(b) && a.pre.Some? != b.pre.Some?
    ensures Core(a) == Core(b) && a.pre.Some? && b.pre.Some? ==> Compare(a, b) in {Rank(0), Rank(4)}
    ensures Core(a) == Core(b) && a.pre.Some? != b.pre.Some? ==> Compare(a, b) == Flag(b.pre.Some?)
  {
  }

  /** The label order: alpha before beta before rc, and any other label before all three. */
  lemma LabelOrder(other: string)
    requires other !in {"alpha", "beta", "rc"}
    ensures DevStrToNum(other) < DevStrToNum("alpha") < DevStrToNum("beta") < DevStrToNum("rc")
  {
  }

  /** A tag compared with itself gives 0. */
  lemma CompareSelf(a: Tag)
    ensures Compare(a, a) == Rank(0)
  {
  }

  /** The numeric core as a sequence. */
  function Core(t: Tag): seq<int>
  {
    [t.major, t.minor, t.patch]
  }

  /**
   * Rank 1, 2 or 3 names the first core component where A is ahead, and rank
   * 0 also comes from the first core component where A is behind; the
   * prerelease suffixes play no part then.
   */
  lemma CoreRank(a: Tag, b: Tag, k: nat)
    requires k < 3
    requires Core(a)[..k] == Core(b)[..k]
    ensures Core(a)[k] > Core(b)[k] ==> Compare(a, b) == Rank(k + 1)
    ensures Core(a)[k] < Core(b)[k] ==> Compare(a, b) == Rank(0)
  {
    assert k > 0 ==> Core(a)[0] == Core(a)[..k][0] == Core(b)[..k][0] == Core(b)[0];
    assert k > 1 ==> Core(a)[1] == Core(a)[..k][1] == Core(b)[..k][1] == Core(b)[1];
  }

  /** Strict lexicographic order on equally long sequences of integers. */
  predicate LexGreater(x: seq<int>, y: seq<int>)
    requires |x| == |y|
  {
    |x| > 0 && (x[0] > y[0] || (x[0] == y[0] && LexGreater(x[1..], y[1..])))
  }

  /**
   * The order the comparator is meant to follow: the core, then "a release is
   * newer than any prerelease", then the label rank, then the index.
   */
  function ReleaseKey(t: Tag): seq<int>
  {
    match t.pre
    case None => Core(t) + [1, 0, 0]
    case Some(p) => Core(t) + [0, DevStrToNum(p.name), p.index.GetOr(0)]
  }

  /**
   * When every prerelease suffix carries its index, the comparator says "A is
   * newer" exactly when A comes later in the release order, boolean quirk
   * included.
   */
  lemma {:induction false} NewerIffLater(a: Tag, b: Tag)
    requires a.pre.Some? ==> a.pre.value.index.Some?
    requires b.pre.Some? ==> b.pre.value.index.Some?
    ensures IsNewer(Compare(a, b)) <==> LexGreater(ReleaseKey(a), ReleaseKey(b))
  {
    var x, y := ReleaseKey(a), ReleaseKey(b);
    assert x == x[0..];
    assert y == y[0..];
    LexGreaterAt(x, y, 0);
    LexGreaterAt(x, y, 1);
    LexGreaterAt(x, y, 2);
    LexGreaterAt(x, y, 3);
    LexGreaterAt(x, y, 4);
    LexGreaterAt(x, y, 5);
    assert !LexGreater(x[6..], y[6..]);
  }

  /** One step of the lexicographic order, at position `i`. */
  lemma LexGreaterAt(x: seq<int>, y: seq<int>, i: nat)
    requires |x| == |y| && i < |x|
    ensures LexGreater(x[i..], y[i..]) <==>
      x[i] > y[i] || (x[i] == y[i] && LexGreater(x[i + 1..], y[i + 1..]))
  {
  }

  /** The comparator never calls both tags newer than each other. */
  lemma Antisymmetric(a: Tag, b: Tag)
    ensures IsNewer(Compare(a, b)) ==> !IsNewer(Compare(b, a))
  {
  }

  /** Worked examples: each core level, prerelease steps by index and by label, dominance of the core, and both booleans. */
  lemma Examples()
    ensures Compare(Tag(2, 0, 0, None), Tag(1, 9, 9, None)) == Rank(1)
    ensures Compare(Tag(1, 3, 0, None), Tag(1, 2, 9, None)) == Rank(2)
    ensures Compare(Tag(1, 2, 4, None), Tag(1, 2, 3, None)) == Rank(3)
    ensures Compare(Tag(1, 2, 3, Some(Prerelease("beta", Some(2)))), Tag(1, 2, 3, Some(Prerelease("beta", Some(1))))) == Rank(4)
    ensures Compare(Tag(1, 2, 3, None), Tag(1, 2, 3, None)) == Rank(0)
    ensures Compare(Tag(1, 2, 3, Some(Prerelease("alpha", Some(1)))), Tag(1, 3, 0, None)) == Rank(0)
    ensures Compare(Tag(1, 2, 3, None), Tag(1, 2, 3, Some(Prerelease("rc", Some(1))))) == Flag(true)
    ensures Compare(Tag(1, 2, 3, Some(Prerelease("beta", Some(1)))), Tag(1, 2, 3, None)) == Flag(false)
    ensures Compare(Tag(1, 2, 3, Some(Prerelease("beta", Some(1)))), Tag(1, 2, 3, Some(Prerelease("alpha", Some(9))))) == Rank(4)
    ensures Compare(Tag(1, 2, 3, Some(Prerelease("alpha", Some(1)))), Tag(1, 2, 3, Some(Prerelease("foo", Some(9))))) == Rank(4)
    ensures Compare(Tag(1, 2, 3, Some(Prerelease("alpha", Some(9)))), Tag(1, 2, 3, Some(Prerelease("beta", Some(1))))) == Rank(0)
  {
  }
}
