/**
 * The pure parts of the reporter: shortening a path for display, and the achievements a scan
 * earns from fixed threshold tables.
 */
module Reporter {
  import opened JsText
  import opened Grouping

  // ---------------------------------------------------------------- shortenPath

  /** The path with a leading, non-empty home directory replaced by `~`. */
  function TildeHome(filePath: string, home: string): string {
    if home != "" && StartsWith(filePath, home) then "~" + filePath[|home|..] else filePath
  }

  /**
   * `shortenPath(filePath, maxLength)` with `home` the value of `HOME` (or `USERPROFILE`, or
   * the empty string): unchanged when it fits, else `~`-substituted, else cut in the middle to
   * its first 20 characters, `...`, and its last `maxLength - 23` characters.
   */
  function ShortenPath(filePath: string, maxLength: int, home: string): (r: string)
    ensures |filePath| <= maxLength ==> r == filePath
    ensures maxLength > 23 ==> |r| <= maxLength
  {
    if |filePath| <= maxLength then filePath
    else
      var shortened := TildeHome(filePath, home);
      if |shortened| <= maxLength then shortened
      else Slice(shortened, 0, 20) + "..." + SliceFrom(shortened, -(maxLength - 23))
  }

  /** A path that fits is shown as is; home substitution is used when it is enough. */
  lemma ShortenPathFits(filePath: string, maxLength: int, home: string)
    ensures |filePath| <= maxLength ==> ShortenPath(filePath, maxLength, home) == filePath
    ensures |filePath| > maxLength && |TildeHome(filePath, home)| <= maxLength ==>
              ShortenPath(filePath, maxLength, home) == TildeHome(filePath, home)
    ensures |filePath| > maxLength && home != "" && StartsWith(filePath, home)
              && 1 + |filePath| - |home| <= maxLength ==>
              ShortenPath(filePath, maxLength, home) == "~" + filePath[|home|..]
  {
  }

  /**
   * A path still too long after home substitution is cut to exactly `maxLength` characters
   * (when `maxLength > 23`): its first 20 characters, `...`, and its last `maxLength - 23`.
   */
  lemma ShortenPathCuts(filePath: string, maxLength: int, home: string)
    requires maxLength > 23 && |TildeHome(filePath, home)| > maxLength
    ensures var s := TildeHome(filePath, home);
            var r := ShortenPath(filePath, maxLength, home);
            && |r| == maxLength
            && r[..20] == s[..20]
            && r[20..23] == "..."
            && r[23..] == s[|s| - (maxLength - 23)..]
  {
    var s := TildeHome(filePath, home);
    assert |filePath| > maxLength by {
      if !(home != "" && StartsWith(filePath, home)) {
        assert s == filePath;
      }
    }
    var r := ShortenPath(filePath, maxLength, home);
    assert r == s[..20] + "..." + s[|s| - (maxLength - 23)..];
  }

  /** With `maxLength` 23 the tail is `slice(-0)`, which is the whole string. */
  lemma ShortenPathAt23(filePath: string, home: string)
    requires |TildeHome(filePath, home)| > 23
    ensures var s := TildeHome(filePath, home);
            ShortenPath(filePath, 23, home) == s[..20] + "..." + s
  {
    var s := TildeHome(filePath, home);
    assert |filePath| > 23 by {
      if !(home != "" && StartsWith(filePath, home)) {
        assert s == filePath;
      }
    }
  }

  // ---------------------------------------------------------------- achievements

  datatype Achievement = Achievement(threshold: int, title: string, desc: string)

  /** Earned by the number of duplicate sets found. */
  const CountAchievements: seq<Achievement> := [
    Achievement(1, "初心捉鬼人", "第一次發現重複檔案"),
    Achievement(5, "靈異偵探", "發現 5 組以上的分身鬼"),
    Achievement(10, "抓鬼達人", "發現 10 組以上的分身鬼"),
    Achievement(50, "驅魔大師", "發現 50 組以上的分身鬼"),
    Achievement(100, "鬼王剋星", "發現 100 組以上的分身鬼")
  ]

  /** Earned by the space the duplicates waste, in bytes. */
  const SpaceAchievements: seq<Achievement> := [
    Achievement(1024 * 1024, "空間解放者", "釋放超過 1 MB"),
    Achievement(100 * 1024 * 1024, "硬碟救星", "釋放超過 100 MB"),
    Achievement(1024 * 1024 * 1024, "儲存空間守護神", "釋放超過 1 GB")
  ]

  predicate Ascending(table: seq<Achievement>) {
    forall i, j :: 0 <= i < j < |table| ==> table[i].threshold <= table[j].threshold
  }

  function Reached(value: int): Achievement -> bool {
    (a: Achievement) => value >= a.threshold
  }

  /** The entries of `table` that `value` reaches, in table order. */
  function Earned(table: seq<Achievement>, value: int): seq<Achievement> {
    Filter(table, Reached(value))
  }

  function AchievementsFor(groupCount: int, wastedSpace: int): seq<Achievement> {
    Earned(CountAchievements, groupCount) + Earned(SpaceAchievements, wastedSpace)
  }

  /**
   * `getAchievements`: the count achievements reached by `groupCount`, then the space
   * achievements reached by `wastedSpace`, each in table order.
   */
  method GetAchievements(groupCount: int, wastedSpace: int) returns (achievements: seq<Achievement>)
    ensures achievements == AchievementsFor(groupCount, wastedSpace)
  {
    WholePrefix(CountAchievements);
    WholePrefix(SpaceAchievements);
    achievements := [];
    for i := 0 to |CountAchievements|
      invariant achievements == Earned(CountAchievements[..i], groupCount)
    {
      FilterPrefix(CountAchievements, i, Reached(groupCount));
      if groupCount >= CountAchievements[i].threshold {
        achievements := achievements + [CountAchievements[i]];
      }
    }
    ghost var counted := achievements;
    for i := 0 to |SpaceAchievements|
      invariant achievements == counted + Earned(SpaceAchievements[..i], wastedSpace)
    {
      EarnedStep(counted, SpaceAchievements, i, wastedSpace);
      if wastedSpace >= SpaceAchievements[i].threshold {
        achievements := achievements + [SpaceAchievements[i]];
      }
    }
  }

  lemma EarnedStep(base: seq<Achievement>, table: seq<Achievement>, i: nat, value: int)
    requires i < |table|
    ensures base + Earned(table[..i + 1], value)
         == (base + Earned(table[..i], value)) + (if value >= table[i].threshold then [table[i]] else [])
  {
    FilterPrefix(table, i, Reached(value));
    var e := Earned(table[..i], value);
    var x := if value >= table[i].threshold then [table[i]] else [];
    assert (base + e) + x == base + (e + x);
  }

  /**
   * An achievement is in the result exactly when it is in the count table and `groupCount`
   * reaches it, or in the space table and `wastedSpace` reaches it; there are at most eight.
   */
  lemma AchievementsForSpec(groupCount: int, wastedSpace: int)
    ensures |AchievementsFor(groupCount, wastedSpace)| <= 8
    ensures forall a :: a in AchievementsFor(groupCount, wastedSpace) <==>
              (a in CountAchievements && groupCount >= a.threshold)
              || (a in SpaceAchievements && wastedSpace >= a.threshold)
  {
    var c := Earned(CountAchievements, groupCount);
    var w := Earned(SpaceAchievements, wastedSpace);
    forall a ensures a in c + w <==> a in c || a in w {
    }
  }

  /**
   * Over an ascending table, what a value earns is a prefix of the table: every entry up to
   * the first threshold above the value, and none after.
   */
  lemma {:induction false} EarnedPrefix(table: seq<Achievement>, value: int)
    requires Ascending(table)
    ensures var n := |Earned(table, value)|;
            && Earned(table, value) == table[..n]
            && (forall i :: n <= i < |table| ==> table[i].threshold > value)
  {
    if table != [] {
      var init := table[..|table| - 1];
      EarnedPrefix(init, value);
      if value >= table[|table| - 1].threshold {
        EarnedPrefixReached(table, value);
      } else {
        EarnedPrefixMissed(table, value);
      }
    }
  }

  /** The step of `EarnedPrefix` when the value reaches the last entry: the whole table is earned. */
  lemma EarnedPrefixReached(table: seq<Achievement>, value: int)
    requires table != [] && Ascending(table) && value >= table[|table| - 1].threshold
    ensures Earned(table, value) == table
  {
    forall i | 0 <= i < |table| ensures table[i].threshold <= value {
      if i < |table| - 1 {
        assert table[i].threshold <= table[|table| - 1].threshold;
      }
    }
    EarnedAll(table, value);
  }

  /** The step of `EarnedPrefix` when the value misses the last entry: it earns what the rest earns. */
  lemma EarnedPrefixMissed(table: seq<Achievement>, value: int)
    requires table != [] && value < table[|table| - 1].threshold
    requires var init := table[..|table| - 1]; var n := |Earned(init, value)|;
             Earned(init, value) == init[..n] && forall i :: n <= i < |init| ==> init[i].threshold > value
    ensures var n := |Earned(table, value)|;
            && Earned(table, value) == table[..n]
            && (forall i :: n <= i < |table| ==> table[i].threshold > value)
  {
    var init := table[..|table| - 1];
    var e := Earned(init, value);
    assert Earned(table, value) == e;
    assert init[..|e|] == table[..|e|];
  }

  /** Over an ascending table, a larger value earns the entries a smaller one earns, and more. */
  lemma EarnedMonotone(table: seq<Achievement>, v: int, w: int)
    requires Ascending(table) && v <= w
    ensures var small := Earned(table, v);
            var large := Earned(table, w);
            |small| <= |large| && large[..|small|] == small
  {
    EarnedPrefix(table, v);
    EarnedPrefix(table, w);
    var small := Earned(table, v);
    var large := Earned(table, w);
    forall i | 0 <= i < |small| ensures table[i].threshold <= w {
      assert small[i] == table[i];
      assert Reached(v)(small[i]);
    }
    assert |large| < |table| ==> table[|large|].threshold > w;
    assert large[..|small|] == table[..|small|];
  }

  /**
   * Larger counts and larger wasted space earn a superset, keeping each table's entries as a
   * prefix of the larger result's.
   */
  lemma AchievementsMonotone(c: int, w: int, c': int, w': int)
    requires c <= c' && w <= w'
    ensures forall a :: a in AchievementsFor(c, w) ==> a in AchievementsFor(c', w')
    ensures var small := Earned(CountAchievements, c);
            var large := Earned(CountAchievements, c');
            |small| <= |large| && large[..|small|] == small
    ensures var small := Earned(SpaceAchievements, w);
            var large := Earned(SpaceAchievements, w');
            |small| <= |large| && large[..|small|] == small
  {
    EarnedMonotone(CountAchievements, c, c');
    EarnedMonotone(SpaceAchievements, w, w');
    PrefixMembers(Earned(CountAchievements, c), Earned(CountAchievements, c'));
    PrefixMembers(Earned(SpaceAchievements, w), Earned(SpaceAchievements, w'));
  }

  lemma PrefixMembers(small: seq<Achievement>, large: seq<Achievement>)
    requires |small| <= |large| && large[..|small|] == small
    ensures forall a :: a in small ==> a in large
  {
    forall a | a in small ensures a in large {
      var i :| 0 <= i < |small| && small[i] == a;
      assert large[i] == a;
    }
  }

  /** Below every threshold of a table nothing of it is earned. */
  lemma {:induction false} NoneEarned(table: seq<Achievement>, value: int)
    requires forall i :: 0 <= i < |table| ==> table[i].threshold > value
    ensures Earned(table, value) == []
  {
    if table != [] {
      NoneEarned(table[..|table| - 1], value);
    }
  }

  /** Below the lowest threshold of both tables nothing is earned. */
  lemma NoAchievements(groupCount: int, wastedSpace: int)
    requires groupCount < 1 && wastedSpace < 1024 * 1024
    ensures AchievementsFor(groupCount, wastedSpace) == []
  {
    NoneEarned(CountAchievements, groupCount);
    NoneEarned(SpaceAchievements, wastedSpace);
  }

  /** A value reaching every threshold of a table earns the whole table. */
  lemma {:induction false} EarnedAll(table: seq<Achievement>, value: int)
    requires forall i :: 0 <= i < |table| ==> table[i].threshold <= value
    ensures Earned(table, value) == table
  {
    if table != [] {
      var init := table[..|table| - 1];
      EarnedAll(init, value);
      assert init + [table[|table| - 1]] == table;
    }
  }

  /** Reaching every top threshold earns all eight entries, in table order. */
  lemma AllAchievements(groupCount: int, wastedSpace: int)
    requires groupCount >= 100 && wastedSpace >= 1024 * 1024 * 1024
    ensures AchievementsFor(groupCount, wastedSpace) == CountAchievements + SpaceAchievements
  {
    EarnedAll(CountAchievements, groupCount);
    EarnedAll(SpaceAchievements, wastedSpace);
  }
}
