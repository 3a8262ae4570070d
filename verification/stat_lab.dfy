/** The Stat Lab page's `calculateStats`: for each favourite drink, MBTI group, zodiac
    sign and birth month, the number of classmates in it. Percentages are left out; the
    month of a birthday (`new Date(birthday).getMonth()`) is a parameter. */
module StatLab {
  import opened Wrappers
  import opened Seqs
  import opened Classmates

  const Drinks: seq<string> :=
    ["Coffee", "Tea", "Soda", "Juice", "Water", "EnergyDrink", "Milk", "Smoothie"]

  const ZodiacSigns: seq<string> :=
    ["Aries", "Taurus", "Gemini", "Cancer", "Leo", "Virgo",
     "Libra", "Scorpio", "Sagittarius", "Capricorn", "Aquarius", "Pisces"]

  const MbtiGroupNames: seq<string> := ["Analysts", "Diplomats", "Sentinels", "Explorers"]

  const MbtiGroupTypes: seq<set<string>> := [
    {"INTJ", "INTP", "ENTJ", "ENTP"},
    {"INFJ", "INFP", "ENFJ", "ENFP"},
    {"ISTJ", "ISFJ", "ESTJ", "ESFJ"},
    {"ISTP", "ISFP", "ESTP", "ESFP"}
  ]

  const MonthNames: seq<string> :=
    ["Jan", "Feb", "Mar", "Apr", "May", "Jun", "Jul", "Aug", "Sep", "Oct", "Nov", "Dec"]

  /** One bar of a chart: its label and how many classmates it counts. */
  datatype Stat = Stat(name: string, count: nat)

  datatype Stats = Stats(drinkStats: seq<Stat>, mbtiStats: seq<Stat>, zodiacStats: seq<Stat>, birthmonthStats: seq<Stat>)

  // ---------------------------------------------------------------------------
  // Counting into groups

  /** Number of entries of `vs` whose value is present and lies in `g`: `filter(...).length`. */
  function CountIn<T(==,!new)>(vs: seq<Option<T>>, g: set<T>): (n: nat)
    ensures n <= |vs|
  {
    Count((v: Option<T>) => v.Some? && v.value in g, vs)
  }

  /** One bar per group, labelled in table order, counting the entries in that group. */
  function GroupStats<T(==,!new)>(labels: seq<string>, groups: seq<set<T>>, vs: seq<Option<T>>): (r: seq<Stat>)
    requires |labels| == |groups|
    ensures |r| == |labels|
    ensures forall i :: 0 <= i < |r| ==> r[i].name == labels[i] && r[i].count <= |vs|
  {
    seq(|labels|, i requires 0 <= i < |labels| => Stat(labels[i], CountIn(vs, groups[i])))
  }

  /** No value lies in two groups. */
  ghost predicate Disjoint<T>(groups: seq<set<T>>)
  {
    forall i, j :: 0 <= i < j < |groups| ==> groups[i] !! groups[j]
  }

  /** The value is present and lies in some group. */
  ghost predicate Covered<T>(v: Option<T>, groups: seq<set<T>>)
  {
    v.Some? && exists i :: 0 <= i < |groups| && v.value in groups[i]
  }

  /** Total of all bars. */
  function Total(stats: seq<Stat>): nat
  {
    if stats == [] then 0 else stats[0].count + Total(stats[1..])
  }

  /** Sum over the groups of the entries counted in each. */
  function SumCounts<T(==,!new)>(vs: seq<Option<T>>, groups: seq<set<T>>): nat
  {
    if groups == [] then 0 else CountIn(vs, groups[0]) + SumCounts(vs, groups[1..])
  }

  /** Number of groups `v` lies in. */
  function Hits<T(==)>(v: Option<T>, groups: seq<set<T>>): nat
  {
    if groups == [] then 0
    else (if v.Some? && v.value in groups[0] then 1 else 0) + Hits(v, groups[1..])
  }

  lemma CountInCons<T(!new)>(v: Option<T>, rest: seq<Option<T>>, g: set<T>)
    ensures CountIn([v] + rest, g) == (if v.Some? && v.value in g then 1 else 0) + CountIn(rest, g)
  {
    assert ([v] + rest)[1..] == rest;
  }

  lemma {:induction false} SumCountsCons<T(!new)>(v: Option<T>, rest: seq<Option<T>>, groups: seq<set<T>>)
    ensures SumCounts([v] + rest, groups) == Hits(v, groups) + SumCounts(rest, groups)
    decreases |groups|
  {
    if groups != [] {
      CountInCons(v, rest, groups[0]);
      SumCountsCons(v, rest, groups[1..]);
    }
  }

  /** With disjoint groups a value lies in at most one of them, and in exactly one when covered. */
  lemma {:induction false} HitsOfDisjoint<T>(v: Option<T>, groups: seq<set<T>>)
    requires Disjoint(groups)
    ensures Hits(v, groups) <= 1
    ensures Covered(v, groups) ==> Hits(v, groups) == 1
    ensures !Covered(v, groups) ==> Hits(v, groups) == 0
    decreases |groups|
  {
    if groups != [] {
      var rest := groups[1..];
      assert Disjoint(rest) by {
        forall i, j | 0 <= i < j < |rest| ensures rest[i] !! rest[j] {
          assert rest[i] == groups[i + 1] && rest[j] == groups[j + 1];
        }
      }
      HitsOfDisjoint(v, rest);
      if v.Some? && v.value in groups[0] {
        assert !Covered(v, rest) by {
          forall i | 0 <= i < |rest| ensures v.value !in rest[i] {
            assert groups[0] !! groups[i + 1];
          }
        }
      }
      if Covered(v, groups) {
        var i :| 0 <= i < |groups| && v.value in groups[i];
        if i > 0 {
          assert v.value in rest[i - 1];
        }
      }
      if Covered(v, rest) {
        var i :| 0 <= i < |rest| && v.value in rest[i];
        assert v.value in groups[i + 1];
      }
    }
  }

  /** Over disjoint groups no entry is counted twice: the group counts add up to at most the
      number of entries, and to exactly that number when every entry lies in some group. */
  lemma {:induction false} DisjointCountsBound<T(!new)>(vs: seq<Option<T>>, groups: seq<set<T>>)
    requires Disjoint(groups)
    ensures SumCounts(vs, groups) <= |vs|
    ensures (forall k :: 0 <= k < |vs| ==> Covered(vs[k], groups)) ==> SumCounts(vs, groups) == |vs|
    decreases |vs|
  {
    if vs == [] {
      SumCountsEmpty(groups);
    } else {
      assert vs == [vs[0]] + vs[1..];
      SumCountsCons(vs[0], vs[1..], groups);
      HitsOfDisjoint(vs[0], groups);
      DisjointCountsBound(vs[1..], groups);
    }
  }

  lemma {:induction false} SumCountsEmpty<T(!new)>(groups: seq<set<T>>)
    ensures SumCounts([], groups) == 0
    decreases |groups|
  {
    if groups != [] {
      SumCountsEmpty(groups[1..]);
    }
  }

  /** The bars of `GroupStats` add up to the per-group counts summed. */
  lemma {:induction false} GroupStatsTotal<T(!new)>(labels: seq<string>, groups: seq<set<T>>, vs: seq<Option<T>>)
    requires |labels| == |groups|
    ensures Total(GroupStats(labels, groups, vs)) == SumCounts(vs, groups)
    decreases |labels|
  {
    if labels != [] {
      assert GroupStats(labels, groups, vs)[1..] == GroupStats(labels[1..], groups[1..], vs);
      GroupStatsTotal(labels[1..], groups[1..], vs);
    }
  }

  /** The tally over disjoint groups never exceeds the number of entries, and reaches it when
      every entry lies in a group. */
  lemma DisjointStatsBound<T(!new)>(labels: seq<string>, groups: seq<set<T>>, vs: seq<Option<T>>)
    requires |labels| == |groups| && Disjoint(groups)
    ensures Total(GroupStats(labels, groups, vs)) <= |vs|
    ensures (forall k :: 0 <= k < |vs| ==> Covered(vs[k], groups)) ==> Total(GroupStats(labels, groups, vs)) == |vs|
  {
    GroupStatsTotal(labels, groups, vs);
    DisjointCountsBound(vs, groups);
  }

  /** `{name}` for each name: a table row matched by `===`. */
  function Singletons<T>(names: seq<T>): (r: seq<set<T>>)
    ensures |r| == |names|
    ensures forall i :: 0 <= i < |r| ==> r[i] == {names[i]}
  {
    seq(|names|, i requires 0 <= i < |names| => {names[i]})
  }

  /** No name occurs twice. */
  ghost predicate DistinctNames<T>(names: seq<T>)
  {
    forall i, j :: 0 <= i < j < |names| ==> names[i] != names[j]
  }

  lemma DistinctSingletonsDisjoint<T>(names: seq<T>)
    requires DistinctNames(names)
    ensures Disjoint(Singletons(names))
  {
  }

  // ---------------------------------------------------------------------------
  // The page's statistics

  function DrinkValues(cs: seq<Classmate>): seq<Option<string>>
  {
    seq(|cs|, k requires 0 <= k < |cs| => cs[k].favoriteDrink)
  }

  function MbtiValues(cs: seq<Classmate>): seq<Option<string>>
  {
    seq(|cs|, k requires 0 <= k < |cs| => cs[k].mbti)
  }

  function ZodiacValues(cs: seq<Classmate>): seq<Option<string>>
  {
    seq(|cs|, k requires 0 <= k < |cs| => cs[k].zodiac)
  }

  /** The birth month index (0 for January) of every classmate; `monthOf` stands for
      `new Date(birthday).getMonth()`, with `None` for an invalid date. */
  function MonthValues(cs: seq<Classmate>, monthOf: Option<string> -> Option<int>): seq<Option<int>>
  {
    seq(|cs|, k requires 0 <= k < |cs| => monthOf(cs[k].birthday))
  }

  /** The twelve month indices, one per bucket. */
  function MonthIndices(): (r: seq<int>)
    ensures |r| == 12 && forall i :: 0 <= i < 12 ==> r[i] == i
  {
    seq(12, i requires 0 <= i < 12 => i)
  }

  /** `calculateStats` without the percentages. */
  function CalculateStats(cs: seq<Classmate>, monthOf: Option<string> -> Option<int>): (s: Stats)
    ensures |s.drinkStats| == |Drinks| && |s.mbtiStats| == |MbtiGroupNames|
    ensures |s.zodiacStats| == |ZodiacSigns| && |s.birthmonthStats| == 12
    ensures forall i :: 0 <= i < |Drinks| ==>
              s.drinkStats[i].name == Drinks[i] && s.drinkStats[i].count == CountIn(DrinkValues(cs), {Drinks[i]})
    ensures forall i :: 0 <= i < |MbtiGroupNames| ==>
              s.mbtiStats[i].name == MbtiGroupNames[i] && s.mbtiStats[i].count == CountIn(MbtiValues(cs), MbtiGroupTypes[i])
    ensures forall i :: 0 <= i < |ZodiacSigns| ==>
              s.zodiacStats[i].name == ZodiacSigns[i] && s.zodiacStats[i].count == CountIn(ZodiacValues(cs), {ZodiacSigns[i]})
    ensures forall i :: 0 <= i < 12 ==>
              s.birthmonthStats[i].name == MonthNames[i] && s.birthmonthStats[i].count == CountIn(MonthValues(cs, monthOf), {i})
  {
    Stats(
      GroupStats(Drinks, Singletons(Drinks), DrinkValues(cs)),
      GroupStats(MbtiGroupNames, MbtiGroupTypes, MbtiValues(cs)),
      GroupStats(ZodiacSigns, Singletons(ZodiacSigns), ZodiacValues(cs)),
      GroupStats(MonthNames, Singletons(MonthIndices()), MonthValues(cs, monthOf)))
  }

  lemma DrinksDistinct()
    ensures DistinctNames(Drinks)
  {
  }

  lemma ZodiacDistinct()
    ensures DistinctNames(ZodiacSigns)
  {
  }

  /** The four MBTI groups share no type. */
  lemma MbtiGroupsDisjoint()
    ensures Disjoint(MbtiGroupTypes)
  {
    var g := MbtiGroupTypes;
    assert g[0] !! g[1];
    assert g[0] !! g[2];
    assert g[0] !! g[3];
    assert g[1] !! g[2];
    assert g[1] !! g[3];
    assert g[2] !! g[3];
  }

  /** The groups hold four types each and sixteen between them. */
  lemma MbtiSixteenTypes()
    ensures forall i :: 0 <= i < |MbtiGroupTypes| ==> |MbtiGroupTypes[i]| == 4
    ensures |MbtiGroupTypes[0] + MbtiGroupTypes[1] + MbtiGroupTypes[2] + MbtiGroupTypes[3]| == 16
  {
    var g := MbtiGroupTypes;
    MbtiGroupsDisjoint();
    assert |g[0]| == 4 && |g[1]| == 4 && |g[2]| == 4 && |g[3]| == 4;
    assert g[0] * g[1] == {};
    assert |g[0] + g[1]| == 8;
    assert (g[0] + g[1]) * g[2] == {};
    assert |g[0] + g[1] + g[2]| == 12;
    assert (g[0] + g[1] + g[2]) * g[3] == {};
  }

  /** Each chart counts every classmate at most once: the drink, MBTI, zodiac and month totals
      never exceed the number of classmates. When every classmate's MBTI type is one of the
      sixteen, the MBTI total is exactly that number. */
  lemma StatsTotalsBound(cs: seq<Classmate>, monthOf: Option<string> -> Option<int>)
    ensures var s := CalculateStats(cs, monthOf);
      && Total(s.drinkStats) <= |cs|
      && Total(s.mbtiStats) <= |cs|
      && Total(s.zodiacStats) <= |cs|
      && Total(s.birthmonthStats) <= |cs|
      && ((forall k :: 0 <= k < |cs| ==> Covered(cs[k].mbti, MbtiGroupTypes)) ==> Total(s.mbtiStats) == |cs|)
  {
    DrinksDistinct();
    DistinctSingletonsDisjoint(Drinks);
    DisjointStatsBound(Drinks, Singletons(Drinks), DrinkValues(cs));
    MbtiGroupsDisjoint();
    DisjointStatsBound(MbtiGroupNames, MbtiGroupTypes, MbtiValues(cs));
    ZodiacDistinct();
    DistinctSingletonsDisjoint(ZodiacSigns);
    DisjointStatsBound(ZodiacSigns, Singletons(ZodiacSigns), ZodiacValues(cs));
    DistinctSingletonsDisjoint(MonthIndices());
    DisjointStatsBound(MonthNames, Singletons(MonthIndices()), MonthValues(cs, monthOf));
    if forall k :: 0 <= k < |cs| ==> Covered(cs[k].mbti, MbtiGroupTypes) {
      assert forall k :: 0 <= k < |cs| ==> Covered(MbtiValues(cs)[k], MbtiGroupTypes);
    }
  }

  /** `Math.max(...counts, 1)`: the height the month chart is scaled to. */
  function MaxBirthCount(stats: seq<Stat>): (m: nat)
    ensures m >= 1
    ensures forall i :: 0 <= i < |stats| ==> stats[i].count <= m
    ensures m == 1 || exists i :: 0 <= i < |stats| && stats[i].count == m
  {
    if stats == [] then 1
    else
      var rest := MaxBirthCount(stats[1..]);
      if stats[0].count > rest then stats[0].count else rest
  }
}
