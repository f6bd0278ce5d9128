/**
 One configured rule and the decision taken at a single (month, hour) slot:
 which rules are in scope there, and which of them the four tiers pick.
 The list functions below carry no postconditions of their own, so that the
 search that calls them slot after slot stays cheap to verify; what they
 compute is stated by the lemmas that follow each of them.
 */
module Matching {
  import opened Wrappers
  import opened Conditions

  /** A configured rule. The daemon's configuration fields are 32-bit integers; the model only compares them. */
  datatype WallpaperConfigItem = WallpaperConfigItem(
    startHour: int,
    endHour: int,
    startMonth: int,
    endMonth: int,
    wallpaperPath: string,
    weather: Weather)

  /** Window containment: a window whose start exceeds its end wraps past the end of the domain. */
  predicate InWindow(start: int, end: int, v: int)
  {
    if start > end then start <= v || end >= v else start <= v && end >= v
  }

  /** A wrapped window holds every value except those strictly between its end and its start. */
  lemma WrappedWindowIsComplementOfGap(start: int, end: int, v: int)
    requires start > end
    ensures InWindow(start, end, v) <==> !(end < v < start)
  {
  }

  /** Hours 22..4 cover the night across midnight; months 11..2 cover the winter across New Year. */
  lemma WrappedWindowExamples()
    ensures forall h | 0 <= h <= 23 :: InWindow(22, 4, h) <==> h in {22, 23, 0, 1, 2, 3, 4}
    ensures forall m | 1 <= m <= 12 :: InWindow(11, 2, m) <==> m in {11, 12, 1, 2}
  {
  }

  /** A rule is in scope at a slot when both its month window and its hour window contain it. */
  predicate Matches(item: WallpaperConfigItem, month: int, hour: int)
  {
    InWindow(item.startMonth, item.endMonth, month) && InWindow(item.startHour, item.endHour, hour)
  }

  /** The rules in scope at a slot, in configuration order. */
  function Candidates(items: seq<WallpaperConfigItem>, month: int, hour: int): seq<WallpaperConfigItem>
  {
    if items == [] then []
    else (if Matches(items[0], month, hour) then [items[0]] else []) + Candidates(items[1..], month, hour)
  }

  /** The candidates are exactly the rules in scope at the slot. */
  lemma {:induction false} CandidatesAreInScope(items: seq<WallpaperConfigItem>, month: int, hour: int)
    ensures var c := Candidates(items, month, hour);
      (forall it :: it in c <==> it in items && Matches(it, month, hour)) && |c| <= |items|
  {
    if items != [] {
      CandidatesAreInScope(items[1..], month, hour);
      assert items == [items[0]] + items[1..];
    }
  }

  /** The first rule scoped to weather w, as `find` yields it. */
  function FirstOfWeather(c: seq<WallpaperConfigItem>, w: Weather): Option<WallpaperConfigItem>
  {
    if c == [] then None
    else if c[0].weather == w then Some(c[0])
    else FirstOfWeather(c[1..], w)
  }

  /** Index i holds the first rule of c scoped to weather w. */
  ghost predicate IsFirstOfWeather(c: seq<WallpaperConfigItem>, i: int, w: Weather)
  {
    0 <= i < |c| && c[i].weather == w && forall j | 0 <= j < i :: c[j].weather != w
  }

  /** `find` by weather yields the rule at the first index scoped to w, and nothing when there is none. */
  lemma {:induction false} FirstOfWeatherIsFirst(c: seq<WallpaperConfigItem>, w: Weather)
    ensures FirstOfWeather(c, w).None? <==> forall i | 0 <= i < |c| :: c[i].weather != w
    ensures forall i | IsFirstOfWeather(c, i, w) :: FirstOfWeather(c, w) == Some(c[i])
  {
    if c != [] && c[0].weather != w {
      FirstOfWeatherIsFirst(c[1..], w);
      forall i | IsFirstOfWeather(c, i, w) ensures IsFirstOfWeather(c[1..], i - 1, w) {
      }
    }
  }

  /** The two fallback tiers that filter by a closeness table. */
  datatype Likeness = Similar | LessSimilar

  predicate Related(k: Likeness, a: Weather, b: Weather)
  {
    match k
    case Similar => IsSimilar(a, b)
    case LessSimilar => IsLessSimilar(a, b)
  }

  /** The rules of c whose weather is related to w by table k, in order. */
  function WithLikeness(c: seq<WallpaperConfigItem>, k: Likeness, w: Weather): seq<WallpaperConfigItem>
  {
    if c == [] then []
    else (if Related(k, c[0].weather, w) then [c[0]] else []) + WithLikeness(c[1..], k, w)
  }

  /** The first rule of c whose file exists, as `find` with the existence probe yields it. */
  function FirstExisting(c: seq<WallpaperConfigItem>, existing: set<string>): Option<WallpaperConfigItem>
  {
    if c == [] then None
    else if c[0].wallpaperPath in existing then Some(c[0])
    else FirstExisting(c[1..], existing)
  }

  /** Index i holds the first rule of c that is related to w by table k and whose file exists. */
  ghost predicate IsFirstRelatedExisting(c: seq<WallpaperConfigItem>, i: int, k: Likeness, w: Weather, existing: set<string>)
  {
    && 0 <= i < |c| && Related(k, c[i].weather, w) && c[i].wallpaperPath in existing
    && forall j | 0 <= j < i :: !(Related(k, c[j].weather, w) && c[j].wallpaperPath in existing)
  }

  /** A filtering tier (filter by table k, then find an existing file) never looks past the first rule that passes. */
  lemma FilteredTierStep(c: seq<WallpaperConfigItem>, k: Likeness, w: Weather, existing: set<string>)
    requires c != []
    ensures FirstExisting(WithLikeness(c, k, w), existing)
         == if Related(k, c[0].weather, w) && c[0].wallpaperPath in existing then Some(c[0])
            else FirstExisting(WithLikeness(c[1..], k, w), existing)
  {
    var tail := WithLikeness(c[1..], k, w);
    if Related(k, c[0].weather, w) {
      assert WithLikeness(c, k, w) == [c[0]] + tail;
      assert ([c[0]] + tail)[1..] == tail;
    } else {
      assert WithLikeness(c, k, w) == tail;
    }
  }

  /**
   A filtering tier picks the candidate at the first index that is related
   to w by table k and whose file exists, and picks nothing exactly when no
   candidate passes both tests.
   */
  lemma {:induction false} FilteredTierPicksFirst(c: seq<WallpaperConfigItem>, k: Likeness, w: Weather, existing: set<string>)
    ensures FirstExisting(WithLikeness(c, k, w), existing).None?
        <==> forall i | 0 <= i < |c| :: !(Related(k, c[i].weather, w) && c[i].wallpaperPath in existing)
    ensures forall i | IsFirstRelatedExisting(c, i, k, w, existing) ::
              FirstExisting(WithLikeness(c, k, w), existing) == Some(c[i])
  {
    if c != [] {
      FilteredTierStep(c, k, w, existing);
      if !(Related(k, c[0].weather, w) && c[0].wallpaperPath in existing) {
        FilteredTierPicksFirst(c[1..], k, w, existing);
        assert forall i | 1 <= i < |c| :: c[i] == c[1..][i - 1];
        forall i | IsFirstRelatedExisting(c, i, k, w, existing)
          ensures IsFirstRelatedExisting(c[1..], i - 1, k, w, existing)
        {
        }
      }
    }
  }

  /** Index i holds the first configured rule that is in scope at (month, hour) and scoped to weather w. */
  ghost predicate IsFirstRuleInScopeOfWeather(items: seq<WallpaperConfigItem>, i: int, month: int, hour: int, w: Weather)
  {
    && 0 <= i < |items| && Matches(items[i], month, hour) && items[i].weather == w
    && forall j | 0 <= j < i :: !(Matches(items[j], month, hour) && items[j].weather == w)
  }

  /**
   Collecting the candidates keeps configuration order: the lookup by weather
   among the candidates finds the first configured rule in scope with that
   weather, and nothing exactly when there is none.
   */
  lemma {:induction false} FirstCandidateOfWeatherIsFirstRule(items: seq<WallpaperConfigItem>, month: int, hour: int, w: Weather)
    ensures FirstOfWeather(Candidates(items, month, hour), w).None?
        <==> forall i | 0 <= i < |items| :: !(Matches(items[i], month, hour) && items[i].weather == w)
    ensures forall i | IsFirstRuleInScopeOfWeather(items, i, month, hour, w) ::
              FirstOfWeather(Candidates(items, month, hour), w) == Some(items[i])
  {
    if items != [] {
      var x, rest := items[0], Candidates(items[1..], month, hour);
      if Matches(x, month, hour) {
        assert Candidates(items, month, hour) == [x] + rest;
        assert ([x] + rest)[1..] == rest;
      } else {
        assert Candidates(items, month, hour) == rest;
      }
      if !(Matches(x, month, hour) && x.weather == w) {
        FirstCandidateOfWeatherIsFirstRule(items[1..], month, hour, w);
        assert forall i | 1 <= i < |items| :: items[i] == items[1..][i - 1];
        forall i | IsFirstRuleInScopeOfWeather(items, i, month, hour, w)
          ensures IsFirstRuleInScopeOfWeather(items[1..], i - 1, month, hour, w)
        {
        }
      }
    }
  }

  /** Index i holds the first configured rule in scope at (month, hour), related to w by table k, whose file exists. */
  ghost predicate IsFirstRuleInScopeRelatedExisting(items: seq<WallpaperConfigItem>, i: int, month: int, hour: int,
                                                    k: Likeness, w: Weather, existing: set<string>)
  {
    && 0 <= i < |items| && Matches(items[i], month, hour) && Related(k, items[i].weather, w) && items[i].wallpaperPath in existing
    && forall j | 0 <= j < i :: !(Matches(items[j], month, hour) && Related(k, items[j].weather, w) && items[j].wallpaperPath in existing)
  }

  /**
   A filtering tier over the candidates picks the first configured rule in
   scope that is related to w by table k and whose file exists, and nothing
   exactly when there is none.
   */
  lemma {:induction false} FilteredCandidateIsFirstRule(items: seq<WallpaperConfigItem>, month: int, hour: int,
                                                        k: Likeness, w: Weather, existing: set<string>)
    ensures FirstExisting(WithLikeness(Candidates(items, month, hour), k, w), existing).None?
        <==> forall i | 0 <= i < |items| ::
               !(Matches(items[i], month, hour) && Related(k, items[i].weather, w) && items[i].wallpaperPath in existing)
    ensures forall i | IsFirstRuleInScopeRelatedExisting(items, i, month, hour, k, w, existing) ::
              FirstExisting(WithLikeness(Candidates(items, month, hour), k, w), existing) == Some(items[i])
  {
    if items != [] {
      CandidateTierStep(items, month, hour, k, w, existing);
      var x := items[0];
      if !(Matches(x, month, hour) && Related(k, x.weather, w) && x.wallpaperPath in existing) {
        FilteredCandidateIsFirstRule(items[1..], month, hour, k, w, existing);
        assert forall i | 1 <= i < |items| :: items[i] == items[1..][i - 1];
        forall i | IsFirstRuleInScopeRelatedExisting(items, i, month, hour, k, w, existing)
          ensures IsFirstRuleInScopeRelatedExisting(items[1..], i - 1, month, hour, k, w, existing)
        {
        }
      }
    }
  }

  /** A filtering tier over the candidates looks at the configured rules one at a time, in order. */
  lemma CandidateTierStep(items: seq<WallpaperConfigItem>, month: int, hour: int, k: Likeness, w: Weather, existing: set<string>)
    requires items != []
    ensures FirstExisting(WithLikeness(Candidates(items, month, hour), k, w), existing)
         == if Matches(items[0], month, hour) && Related(k, items[0].weather, w) && items[0].wallpaperPath in existing
            then Some(items[0])
            else FirstExisting(WithLikeness(Candidates(items[1..], month, hour), k, w), existing)
  {
    var x, rest := items[0], Candidates(items[1..], month, hour);
    var c := Candidates(items, month, hour);
    if Matches(x, month, hour) {
      assert c == [x] + rest;
      assert c[0] == x && c[1..] == rest;
      FilteredTierStep(c, k, w, existing);
    } else {
      assert c == rest;
    }
  }

  /** The weather relations under which a rule can be picked at some tier. */
  predicate AdmittedAtSomeTier(ruleWeather: Weather, w: Weather)
  {
    ruleWeather == w || IsSimilar(ruleWeather, w) || IsLessSimilar(ruleWeather, w) || ruleWeather == Clear
  }

  /**
   The tiers tried among the candidates c of one slot: exact weather (the
   first such rule only), then the first similar rule with a file, then the
   first less-similar rule with a file, then Clear (the first such rule only).
   */
  function TierChoice(c: seq<WallpaperConfigItem>, w: Weather, existing: set<string>): Option<string>
  {
    if |c| == 0 then None
    else
      var exact := FirstOfWeather(c, w);
      if exact.Some? && exact.value.wallpaperPath in existing then Some(exact.value.wallpaperPath)
      else
        var similar := FirstExisting(WithLikeness(c, Similar, w), existing);
        if similar.Some? then Some(similar.value.wallpaperPath)
        else
          var lessSimilar := FirstExisting(WithLikeness(c, LessSimilar, w), existing);
          if lessSimilar.Some? then Some(lessSimilar.value.wallpaperPath)
          else
            var clear := FirstOfWeather(c, Clear);
            if clear.Some? && clear.value.wallpaperPath in existing then Some(clear.value.wallpaperPath)
            else None
  }

  /** The decision at one slot: the tiers tried among the rules in scope there. */
  function SlotChoice(items: seq<WallpaperConfigItem>, w: Weather, month: int, hour: int, existing: set<string>): Option<string>
  {
    TierChoice(Candidates(items, month, hour), w, existing)
  }

  /** `find` by weather yields a rule of c with that weather. */
  lemma {:induction false} FirstOfWeatherYieldsMember(c: seq<WallpaperConfigItem>, w: Weather)
    ensures var r := FirstOfWeather(c, w);
      r.Some? ==> r.value in c && r.value.weather == w
  {
    if c != [] && c[0].weather != w {
      FirstOfWeatherYieldsMember(c[1..], w);
    }
  }

  /** A filtering tier yields a rule of c related to w by table k whose file exists. */
  lemma {:induction false} FilteredTierYieldsMember(c: seq<WallpaperConfigItem>, k: Likeness, w: Weather, existing: set<string>)
    ensures var r := FirstExisting(WithLikeness(c, k, w), existing);
      r.Some? ==> r.value in c && Related(k, r.value.weather, w) && r.value.wallpaperPath in existing
  {
    if c != [] {
      FilteredTierStep(c, k, w, existing);
      if !(Related(k, c[0].weather, w) && c[0].wallpaperPath in existing) {
        FilteredTierYieldsMember(c[1..], k, w, existing);
      }
    }
  }

  /** Whatever the tiers choose is the path of one of the candidates, admitted at some tier, whose file exists. */
  lemma TierChoiceIsFileBacked(c: seq<WallpaperConfigItem>, w: Weather, existing: set<string>)
    ensures var r := TierChoice(c, w, existing);
      r.Some? ==> exists it :: && it in c && it.wallpaperPath in existing && it.wallpaperPath == r.value
                               && AdmittedAtSomeTier(it.weather, w)
  {
    FirstOfWeatherYieldsMember(c, w);
    FirstOfWeatherYieldsMember(c, Clear);
    FilteredTierYieldsMember(c, Similar, w, existing);
    FilteredTierYieldsMember(c, LessSimilar, w, existing);
  }

  /** Whatever a slot yields is the path of a rule in scope at that slot, admitted at some tier, whose file exists. */
  lemma SlotChoiceIsFileBacked(items: seq<WallpaperConfigItem>, w: Weather, month: int, hour: int, existing: set<string>)
    ensures var r := SlotChoice(items, w, month, hour, existing);
      r.Some? ==> exists it :: && it in items && Matches(it, month, hour)
                               && it.wallpaperPath in existing && it.wallpaperPath == r.value
                               && AdmittedAtSomeTier(it.weather, w)
  {
    CandidatesAreInScope(items, month, hour);
    TierChoiceIsFileBacked(Candidates(items, month, hour), w, existing);
  }

  /** The exact tier fails: the first candidate scoped to w, if there is one, has no file. */
  ghost predicate ExactTierFails(c: seq<WallpaperConfigItem>, w: Weather, existing: set<string>)
  {
    forall i | IsFirstOfWeather(c, i, w) :: c[i].wallpaperPath !in existing
  }

  /** Some candidate is related to w by table k and has a file. */
  ghost predicate FilteredTierHasPick(c: seq<WallpaperConfigItem>, k: Likeness, w: Weather, existing: set<string>)
  {
    exists i | 0 <= i < |c| :: Related(k, c[i].weather, w) && c[i].wallpaperPath in existing
  }

  /** The probe the exact and Clear tiers make fails exactly when the first candidate of that weather has no file. */
  lemma ProbeFailsIffFirstHasNoFile(c: seq<WallpaperConfigItem>, w: Weather, existing: set<string>)
    ensures var e := FirstOfWeather(c, w);
      !(e.Some? && e.value.wallpaperPath in existing) <==> ExactTierFails(c, w, existing)
  {
    FirstOfWeatherIsFirst(c, w);
    FirstOfWeatherYieldsMember(c, w);
    var e := FirstOfWeather(c, w);
    if e.Some? {
      var i := FirstIndexOfWeather(c, w);
    }
  }

  /** The index where weather w first occurs in c, when it occurs. */
  lemma FirstIndexOfWeather(c: seq<WallpaperConfigItem>, w: Weather) returns (i: int)
    requires exists j | 0 <= j < |c| :: c[j].weather == w
    ensures IsFirstOfWeather(c, i, w)
  {
    i := 0;
    while c[i].weather != w
      invariant 0 <= i < |c|
      invariant forall j | 0 <= j < i :: c[j].weather != w
      invariant exists j | i <= j < |c| :: c[j].weather == w
      decreases |c| - i
    {
      i := i + 1;
    }
  }

  /** Tier 1: the first exact-weather candidate is chosen when its file exists. */
  lemma ExactTierDecides(c: seq<WallpaperConfigItem>, w: Weather, existing: set<string>, i: int)
    requires IsFirstOfWeather(c, i, w) && c[i].wallpaperPath in existing
    ensures TierChoice(c, w, existing) == Some(c[i].wallpaperPath)
  {
    FirstOfWeatherIsFirst(c, w);
  }

  /**
   Tier 2: when the exact tier fails, the first similar candidate with a file
   is chosen; this holds even when a later exact-weather candidate has a file.
   */
  lemma SimilarTierDecides(c: seq<WallpaperConfigItem>, w: Weather, existing: set<string>, i: int)
    requires ExactTierFails(c, w, existing)
    requires IsFirstRelatedExisting(c, i, Similar, w, existing)
    ensures TierChoice(c, w, existing) == Some(c[i].wallpaperPath)
  {
    ProbeFailsIffFirstHasNoFile(c, w, existing);
    FilteredTierPicksFirst(c, Similar, w, existing);
  }

  /** Tier 3: when the exact and similar tiers fail, the first less-similar candidate with a file is chosen. */
  lemma LessSimilarTierDecides(c: seq<WallpaperConfigItem>, w: Weather, existing: set<string>, i: int)
    requires ExactTierFails(c, w, existing)
    requires !FilteredTierHasPick(c, Similar, w, existing)
    requires IsFirstRelatedExisting(c, i, LessSimilar, w, existing)
    ensures TierChoice(c, w, existing) == Some(c[i].wallpaperPath)
  {
    ProbeFailsIffFirstHasNoFile(c, w, existing);
    FilteredTierPicksFirst(c, Similar, w, existing);
    FilteredTierPicksFirst(c, LessSimilar, w, existing);
  }

  /**
   Tier 4: when the first three tiers fail, the slot yields the first Clear
   candidate's path if its file exists, and nothing otherwise; a later Clear
   candidate is never probed.
   */
  lemma ClearTierDecides(c: seq<WallpaperConfigItem>, w: Weather, existing: set<string>)
    requires ExactTierFails(c, w, existing)
    requires !FilteredTierHasPick(c, Similar, w, existing)
    requires !FilteredTierHasPick(c, LessSimilar, w, existing)
    ensures TierChoice(c, w, existing).Some? <==> !ExactTierFails(c, Clear, existing)
    ensures forall i | IsFirstOfWeather(c, i, Clear) && c[i].wallpaperPath in existing ::
              TierChoice(c, w, existing) == Some(c[i].wallpaperPath)
  {
    ProbeFailsIffFirstHasNoFile(c, w, existing);
    ProbeFailsIffFirstHasNoFile(c, Clear, existing);
    FirstOfWeatherIsFirst(c, Clear);
    FilteredTierPicksFirst(c, Similar, w, existing);
    FilteredTierPicksFirst(c, LessSimilar, w, existing);
  }

  /** For current weather Fog, the less-similar tier filters exactly as the similar tier does, so it can never add a pick. */
  lemma {:induction false} FogLessSimilarTierIsRedundant(c: seq<WallpaperConfigItem>)
    ensures WithLikeness(c, LessSimilar, Fog) == WithLikeness(c, Similar, Fog)
  {
    if c != [] {
      FogLessSimilarTierIsRedundant(c[1..]);
    }
  }

  /**
   With a Fog rule under Overcast weather, or an Overcast rule under Fog
   weather, with a file, the similar tier already picks a rule, so the
   less-similar tier is not consulted for that pair.
   */
  lemma FogOvercastDecidedBySimilarTier(c: seq<WallpaperConfigItem>, w: Weather, existing: set<string>, i: int)
    requires 0 <= i < |c| && c[i].wallpaperPath in existing
    requires (c[i].weather, w) == (Fog, Overcast) || (c[i].weather, w) == (Overcast, Fog)
    ensures FirstExisting(WithLikeness(c, Similar, w), existing).Some?
  {
    FilteredTierPicksFirst(c, Similar, w, existing);
  }
}
