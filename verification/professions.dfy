/** The profession table of the professions mod (`Professions.IndexByName`
    with its `IndexOf` and `NameOf` lookups) and the two three-tier quality
    functions of the Ecologist and Gemologist professions. */
module Professions {
  import opened Outcomes

  /** The exceptions of the two lookups: `ArgumentException` for an unknown
      name, `IndexOutOfRangeException` for an unknown index. */
  datatype LookupError = UnknownName(name: string) | UnknownIndex(index: int)

  /** A two-way table of (name, index) rows. */
  type Table = seq<(string, int)>

  /** The number of professions, and so of rows and of distinct indices. */
  const ProfessionCount: nat := 30

  /** Row `k` of `IndexByName`, in declaration order: six professions per
      skill. The indices are the game's profession ids as annotated beside
      each row of the source table. */
  function Row(k: int): (string, int)
  {
    match k
    // farming
    case 0 => ("Rancher", 0)
    case 1 => ("Breeder", 2)
    case 2 => ("Producer", 3)
    case 3 => ("Harvester", 1)
    case 4 => ("Artisan", 4)
    case 5 => ("Agriculturist", 5)
    // fishing
    case 6 => ("Fisher", 6)
    case 7 => ("Angler", 8)
    case 8 => ("Aquarist", 9)
    case 9 => ("Trapper", 7)
    case 10 => ("Luremaster", 10)
    case 11 => ("Conservationist", 11)
    // foraging
    case 12 => ("Lumberjack", 12)
    case 13 => ("Arborist", 14)
    case 14 => ("Tapper", 15)
    case 15 => ("Forager", 13)
    case 16 => ("Ecologist", 16)
    case 17 => ("Scavenger", 17)
    // mining
    case 18 => ("Miner", 18)
    case 19 => ("Spelunker", 20)
    case 20 => ("Prospector", 21)
    case 21 => ("Blaster", 19)
    case 22 => ("Demolitionist", 22)
    case 23 => ("Gemologist", 23)
    // combat
    case 24 => ("Fighter", 24)
    case 25 => ("Brute", 26)
    case 26 => ("Poacher", 27)
    case 27 => ("Rascal", 25)
    case 28 => ("Piper", 28)
    case 29 => ("Desperado", 29)
    case _ => ("", -1)
  }

  /** `IndexByName`: the table of (name, index) rows. */
  function IndexByName(): Table { seq(30, Row) }

  // ------------------------------------------------------------- lookups

  /** Some row of `t` is named `name`. */
  predicate HasName(t: Table, name: string)
  {
    exists k | 0 <= k < |t| :: t[k].0 == name
  }

  /** Some row of `t` holds index `i`. */
  predicate HasIndex(t: Table, i: int)
  {
    exists k | 0 <= k < |t| :: t[k].1 == i
  }

  /** Row `(name, i)` is in `t`. */
  predicate HasRow(t: Table, name: string, i: int)
  {
    exists k | 0 <= k < |t| :: t[k].0 == name && t[k].1 == i
  }

  /** `Forward.TryGetValue`: the index on the first row named `name`. */
  function Forward(t: Table, name: string): (r: Option<int>)
    ensures r.Some? <==> HasName(t, name)
    ensures r.Some? ==> HasRow(t, name, r.value)
  {
    if |t| == 0 then None
    else if t[0].0 == name then Some(t[0].1)
    else
      var r := Forward(t[1..], name);
      assert HasName(t, name) ==> HasName(t[1..], name) by {
        if HasName(t, name) {
          var k :| 0 <= k < |t| && t[k].0 == name;
          assert t[1..][k - 1].0 == name;
        }
      }
      assert r.Some? ==> HasRow(t, name, r.value) by {
        if r.Some? {
          var k :| 0 <= k < |t| - 1 && t[1..][k].0 == name && t[1..][k].1 == r.value;
          assert t[k + 1] == t[1..][k];
        }
      }
      r
  }

  /** `Reverse.TryGetValue`: the name on the first row holding index `i`. */
  function Backward(t: Table, i: int): (r: Option<string>)
    ensures r.Some? <==> HasIndex(t, i)
    ensures r.Some? ==> HasRow(t, r.value, i)
  {
    if |t| == 0 then None
    else if t[0].1 == i then Some(t[0].0)
    else
      var r := Backward(t[1..], i);
      assert HasIndex(t, i) ==> HasIndex(t[1..], i) by {
        if HasIndex(t, i) {
          var k :| 0 <= k < |t| && t[k].1 == i;
          assert t[1..][k - 1].1 == i;
        }
      }
      assert r.Some? ==> HasRow(t, r.value, i) by {
        if r.Some? {
          var k :| 0 <= k < |t| - 1 && t[1..][k].0 == r.value && t[1..][k].1 == i;
          assert t[k + 1] == t[1..][k];
        }
      }
      r
  }

  /** `IndexOf(professionName)`: the index of a profession, by exact
      (case-sensitive) name. */
  function IndexOf(name: string): (r: Result<int, LookupError>)
    ensures r.Ok? <==> HasName(IndexByName(), name)
    ensures r.Ok? ==> HasRow(IndexByName(), name, r.value)
    ensures r.Err? ==> r.error == UnknownName(name)
  {
    match Forward(IndexByName(), name)
    case Some(i) => Ok(i)
    case None => Err(UnknownName(name))
  }

  /** `NameOf(professionIndex)`: the name of a profession, by index. */
  function NameOf(i: int): (r: Result<string, LookupError>)
    ensures r.Ok? <==> HasIndex(IndexByName(), i)
    ensures r.Ok? ==> HasRow(IndexByName(), r.value, i)
    ensures r.Err? ==> r.error == UnknownIndex(i)
  {
    match Backward(IndexByName(), i)
    case Some(name) => Ok(name)
    case None => Err(UnknownIndex(i))
  }

  // ----------------------------------------------------------- bijection

  /** No name appears on two rows. */
  predicate NamesUnique(t: Table)
  {
    forall k, k' :: 0 <= k < k' < |t| ==> t[k].0 != t[k'].0
  }

  /** No name on rows `lo .. hi - 1` appears again on a later row. */
  predicate NamesUniqueRows(t: Table, lo: int, hi: int)
  {
    forall k, k' :: 0 <= k && lo <= k < hi && k < k' < |t| ==> t[k].0 != t[k'].0
  }

  /** No index appears on two rows. */
  predicate IndicesUnique(t: Table)
  {
    forall k, k' :: 0 <= k < k' < |t| ==> t[k].1 != t[k'].1
  }

  /** The indices of the table are exactly `0 .. n - 1`. */
  ghost predicate IndicesAre(t: Table, n: int)
  {
    forall i :: HasIndex(t, i) <==> 0 <= i < n
  }

  /** The row of `IndexByName` that holds index `i`. */
  function RowOf(i: int): int
  {
    match i
    case 0 => 0   case 1 => 3   case 2 => 1   case 3 => 2   case 4 => 4   case 5 => 5
    case 6 => 6   case 7 => 9   case 8 => 7   case 9 => 8   case 10 => 10 case 11 => 11
    case 12 => 12 case 13 => 15 case 14 => 13 case 15 => 14 case 16 => 16 case 17 => 17
    case 18 => 18 case 19 => 21 case 20 => 19 case 21 => 20 case 22 => 22 case 23 => 23
    case 24 => 24 case 25 => 27 case 26 => 25 case 27 => 26 case 28 => 28 case 29 => 29
    case _ => -1
  }

  /** `RowOf` inverts the index column of `IndexByName`. */
  lemma RowOfInverts()
    ensures |IndexByName()| == ProfessionCount
    ensures forall k :: 0 <= k < |IndexByName()| ==>
              0 <= IndexByName()[k].1 < ProfessionCount && RowOf(IndexByName()[k].1) == k
    ensures forall i :: 0 <= i < ProfessionCount ==>
              0 <= RowOf(i) < |IndexByName()| && IndexByName()[RowOf(i)].1 == i
  {
  }

  /** A table whose index column has an inverse has unique indices, and its
      indices are those the inverse is defined on. */
  lemma UniqueByInverse(t: Table, n: int)
    requires forall k :: 0 <= k < |t| ==> 0 <= t[k].1 < n && RowOf(t[k].1) == k
    requires forall i :: 0 <= i < n ==> 0 <= RowOf(i) < |t| && t[RowOf(i)].1 == i
    ensures IndicesUnique(t) && IndicesAre(t, n)
  {
    forall i | 0 <= i < n
      ensures HasIndex(t, i)
    {
      assert t[RowOf(i)].1 == i;
    }
  }

  /** Uniqueness checked over consecutive row ranges holds over their union. */
  lemma NamesUniqueJoin(t: Table, a: int, b: int, c: int)
    requires NamesUniqueRows(t, a, b) && NamesUniqueRows(t, b, c)
    ensures NamesUniqueRows(t, a, c)
  {
  }

  // Name distinctness of `IndexByName`, a few rows at a time.
  lemma NamesUniqueFrom0()
    ensures NamesUniqueRows(IndexByName(), 0, 3)
  {
  }

  lemma NamesUniqueFrom3()
    ensures NamesUniqueRows(IndexByName(), 3, 6)
  {
  }

  lemma NamesUniqueFrom6()
    ensures NamesUniqueRows(IndexByName(), 6, 10)
  {
  }

  lemma NamesUniqueFrom10()
    ensures NamesUniqueRows(IndexByName(), 10, 15)
  {
  }

  lemma NamesUniqueFrom15()
    ensures NamesUniqueRows(IndexByName(), 15, 20)
  {
  }

  lemma NamesUniqueFrom20()
    ensures NamesUniqueRows(IndexByName(), 20, 30)
  {
  }

  /** `IndexByName` is a bijection between 30 distinct names and the indices
      0 to 29. */
  lemma TableIsBijection()
    ensures |IndexByName()| == ProfessionCount
    ensures NamesUnique(IndexByName()) && IndicesUnique(IndexByName())
    ensures IndicesAre(IndexByName(), ProfessionCount)
  {
    RowOfInverts();
    UniqueByInverse(IndexByName(), ProfessionCount);
    NamesUniqueFrom0();
    NamesUniqueFrom3();
    NamesUniqueFrom6();
    NamesUniqueFrom10();
    NamesUniqueFrom15();
    NamesUniqueFrom20();
    NamesUniqueJoin(IndexByName(), 0, 3, 6);
    NamesUniqueJoin(IndexByName(), 0, 6, 10);
    NamesUniqueJoin(IndexByName(), 0, 10, 15);
    NamesUniqueJoin(IndexByName(), 0, 15, 20);
    NamesUniqueJoin(IndexByName(), 0, 20, 30);
  }

  /** In a table without repeated names, the forward lookup finds each row. */
  lemma ForwardFindsRow(t: Table, k: int)
    requires NamesUnique(t) && 0 <= k < |t|
    ensures Forward(t, t[k].0) == Some(t[k].1)
  {
    assert HasName(t, t[k].0) by { assert t[k].0 == t[k].0; }
    var v := Forward(t, t[k].0).value;
    var j :| 0 <= j < |t| && t[j].0 == t[k].0 && t[j].1 == v;
    assert j == k;
  }

  /** In a table without repeated indices, the backward lookup finds each row. */
  lemma BackwardFindsRow(t: Table, k: int)
    requires IndicesUnique(t) && 0 <= k < |t|
    ensures Backward(t, t[k].1) == Some(t[k].0)
  {
    assert HasIndex(t, t[k].1) by { assert t[k].1 == t[k].1; }
    var v := Backward(t, t[k].1).value;
    var j :| 0 <= j < |t| && t[j].0 == v && t[j].1 == t[k].1;
    assert j == k;
  }

  /** In a two-way table, each lookup undoes the other. */
  lemma LookupsInvert(t: Table, name: string, i: int)
    requires NamesUnique(t) && IndicesUnique(t)
    ensures Forward(t, name).Some? ==> Backward(t, Forward(t, name).value) == Some(name)
    ensures Backward(t, i).Some? ==> Forward(t, Backward(t, i).value) == Some(i)
  {
    if Forward(t, name).Some? {
      var k :| 0 <= k < |t| && t[k].0 == name && t[k].1 == Forward(t, name).value;
      BackwardFindsRow(t, k);
    }
    if Backward(t, i).Some? {
      var k :| 0 <= k < |t| && t[k].0 == Backward(t, i).value && t[k].1 == i;
      ForwardFindsRow(t, k);
    }
  }

  /** `NameOf` undoes `IndexOf` on every profession name. */
  lemma {:induction false} NameOfIndexOf(name: string)
    ensures IndexOf(name).Ok? ==> NameOf(IndexOf(name).value) == Ok(name)
  {
    TableIsBijection();
    LookupsInvert(IndexByName(), name, 0);
  }

  /** `NameOf` succeeds exactly on the indices 0 to 29, and `IndexOf` undoes it. */
  lemma {:induction false} IndexOfNameOf(i: int)
    ensures NameOf(i).Ok? <==> 0 <= i < ProfessionCount
    ensures NameOf(i).Ok? ==> IndexOf(NameOf(i).value) == Ok(i)
  {
    TableIsBijection();
    LookupsInvert(IndexByName(), "", i);
  }

  /** The skills, in the order of their blocks in the table. */
  datatype Skill = Farming | Fishing | Foraging | Mining | Combat

  function SkillOfBlock(b: int): Option<Skill>
  {
    match b
    case 0 => Some(Farming)
    case 1 => Some(Fishing)
    case 2 => Some(Foraging)
    case 3 => Some(Mining)
    case 4 => Some(Combat)
    case _ => None
  }

  /** Each skill's block of six rows carries exactly the indices `6b .. 6b + 5`
      for the block number `b`, so `index / 6` names the skill of a
      profession. */
  lemma SkillBlocks()
    ensures forall k :: 0 <= k < |IndexByName()| ==>
              IndexByName()[k].1 / 6 == k / 6 && SkillOfBlock(k / 6).Some?
  {
  }

  // -------------------------------------------------------------- quality

  /** The game's item quality levels. */
  const MedQuality := 1
  const HighQuality := 2
  const BestQuality := 4

  /** The three quality tiers by a counter and the count needed for best
      quality: best from the threshold on, high from half the threshold
      (rounded down) on, medium below that. */
  predicate InTier(count: nat, needed: nat, q: int)
  {
    (q == BestQuality <==> needed <= count) &&
    (q == HighQuality <==> count < needed < 2 * (count + 1)) &&
    (q == MedQuality <==> 2 * (count + 1) <= needed)
  }

  /** `GetEcologistForageQuality` and `GetGemologistMineralQuality` share
      this formula: the first passes the items-foraged counter and
      `ForagesNeededForBestQuality`, the second the minerals-collected
      counter and `MineralsNeededForBestQuality`. */
  function TierQuality(count: nat, needed: nat): (r: int)
    ensures InTier(count, needed, r)
  {
    if count < needed then
      if count < needed / 2 then MedQuality else HighQuality
    else BestQuality
  }

  /** The tier determines the quality: at most one quality level fits. */
  lemma TierIsFunctional(count: nat, needed: nat, q: int, q': int)
    requires InTier(count, needed, q) && InTier(count, needed, q')
    ensures q == q'
  {
  }

  /** Quality never drops as the counter grows, and never rises as the
      threshold grows. */
  lemma QualityMonotone(c: nat, c': nat, n: nat, n': nat)
    ensures c <= c' ==> TierQuality(c, n) <= TierQuality(c', n)
    ensures n <= n' ==> TierQuality(c, n') <= TierQuality(c, n)
  {
  }
}
