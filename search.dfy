/**
 The best-match search: starting at the current (month, hour), try slot after
 slot, advancing the hour (23 wraps to 0) after each slot and the month
 (12 wraps to 1) after each run of hour steps, until a slot yields a path.
 */
module Search {
  import opened Wrappers
  import opened Conditions
  import opened Matching

  /** Outer loop `for m in 1..12`: eleven month steps. */
  const MonthSteps: nat := 11
  /** Inner loop `for h in 1..24`: twenty-three hour steps per month step. */
  const HourSteps: nat := 23
  /** Number of slots the search may examine. */
  const SlotCount: nat := MonthSteps * HourSteps

  /** The hour after h: one more, reset to 0 once it passes 23. */
  function NextHour(h: int): int
  {
    if h + 1 > 23 then 0 else h + 1
  }

  /** The month after m: one more, reset to 1 once it passes 12. */
  function NextMonth(m: int): int
  {
    if m + 1 > 12 then 1 else m + 1
  }

  /**
   The search from the state the loops are in: i month steps and j hour
   steps of the current month step done, current month m and hour h. The
   hour is carried into the next month step as it is, not reset.
   */
  function Sweep(items: seq<WallpaperConfigItem>, w: Weather, existing: set<string>, i: nat, j: nat, m: int, h: int): string
    decreases MonthSteps - i, HourSteps - j
  {
    if i >= MonthSteps then ""
    else if j >= HourSteps then Sweep(items, w, existing, i + 1, 0, NextMonth(m), h)
    else
      match SlotChoice(items, w, m, h, existing)
      case Some(p) => p
      case None => Sweep(items, w, existing, i, j + 1, m, NextHour(h))
  }

  /** What the search returns for weather w at (month, hour), given the set of paths whose files exist. */
  function BestMatch(items: seq<WallpaperConfigItem>, w: Weather, month: int, hour: int, existing: set<string>): string
  {
    Sweep(items, w, existing, 0, 0, month, hour)
  }

  /**
   The body of the search at one slot: the rules in scope, then the four
   tiers in order, leaving as soon as one of them finds a path with a file.
   It takes the steps of TierChoice one by one, with the early returns of
   the daemon's loop body.
   */
  method MatchAtSlot(weather: Weather, items: seq<WallpaperConfigItem>, nowMonth: int, nowHour: int, existing: set<string>)
    returns (found: Option<string>)
    ensures found == SlotChoice(items, weather, nowMonth, nowHour, existing)
  {
    var anyMatch := Candidates(items, nowMonth, nowHour);
    if |anyMatch| > 0 {
      var exactMatch := FirstOfWeather(anyMatch, weather);
      if exactMatch.Some? && exactMatch.value.wallpaperPath in existing {
        return Some(exactMatch.value.wallpaperPath);
      }
      var similarMatch := FirstExisting(WithLikeness(anyMatch, Similar, weather), existing);
      if similarMatch.Some? {
        return Some(similarMatch.value.wallpaperPath);
      }
      var lessSimilarMatch := FirstExisting(WithLikeness(anyMatch, LessSimilar, weather), existing);
      if lessSimilarMatch.Some? {
        return Some(lessSimilarMatch.value.wallpaperPath);
      }
      var clearMatch := FirstOfWeather(anyMatch, Clear);
      if clearMatch.Some? && clearMatch.value.wallpaperPath in existing {
        return Some(clearMatch.value.wallpaperPath);
      }
    }
    return None;
  }

  /**
   The search as the daemon runs it: two nested counted loops over a mutable
   month and hour, returning at the first slot that yields a path.
   `examined` counts the slots looked at.
   */
  method GetBestWallpaperMatch(weather: Weather, items: seq<WallpaperConfigItem>, month: int, hour: int, existing: set<string>)
    returns (path: string, ghost examined: nat)
    ensures path == BestMatch(items, weather, month, hour, existing)
    ensures examined <= SlotCount
  {
    var nowMonth := month;
    var nowHour := hour;
    examined := 0;
    for m := 1 to 12
      invariant examined == HourSteps * (m - 1)
      invariant BestMatch(items, weather, month, hour, existing) == Sweep(items, weather, existing, m - 1, 0, nowMonth, nowHour)
    {
      for h := 1 to 24
        invariant examined == HourSteps * (m - 1) + (h - 1)
        invariant BestMatch(items, weather, month, hour, existing) == Sweep(items, weather, existing, m - 1, h - 1, nowMonth, nowHour)
      {
        var found := MatchAtSlot(weather, items, nowMonth, nowHour, existing);
        examined := examined + 1;
        if found.Some? {
          return found.value, examined;
        }
        nowHour := nowHour + 1;
        if nowHour > 23 {
          nowHour := 0;
        }
      }
      nowMonth := nowMonth + 1;
      if nowMonth > 12 {
        nowMonth := 1;
      }
    }
    path := "";
  }

  // ---- The slots the search visits, by number ----

  /** The hour after k hour steps from h. */
  function HourAfter(h: int, k: nat): int
  {
    if k == 0 then h else NextHour(HourAfter(h, k - 1))
  }

  /** The month after k month steps from m. */
  function MonthAfter(m: int, k: nat): int
  {
    if k == 0 then m else NextMonth(MonthAfter(m, k - 1))
  }

  /** Month of slot n (counting from 0) of a search started in month: one month step every HourSteps slots. */
  function SlotMonth(month: int, n: nat): int
  {
    MonthAfter(month, n / HourSteps)
  }

  /** Hour of slot n of a search started at hour: one hour step per slot, across month steps too. */
  function SlotHour(hour: int, n: nat): int
  {
    HourAfter(hour, n)
  }

  /** What slot n of the search yields. */
  function ChoiceAt(items: seq<WallpaperConfigItem>, w: Weather, month: int, hour: int, existing: set<string>, n: nat): Option<string>
  {
    SlotChoice(items, w, SlotMonth(month, n), SlotHour(hour, n), existing)
  }

  /** Slot j of month step i is slot number HourSteps * i + j. */
  lemma SlotNumber(month: int, n: nat, i: nat, j: nat)
    requires j < HourSteps && n == HourSteps * i + j
    ensures SlotMonth(month, n) == MonthAfter(month, i)
  {
    assert n / HourSteps == i;
  }

  /**
   The sweep from loop state (i, j, m, h), which is slot number
   HourSteps * i + j, returns the choice of the first later slot that
   yields one, and "" when none of them does.
   */
  lemma {:induction false} SweepIsFirstChoice(items: seq<WallpaperConfigItem>, w: Weather, month: int, hour: int, existing: set<string>,
                                              i: nat, j: nat, m: int, h: int)
    requires j <= HourSteps
    requires m == MonthAfter(month, i) && h == HourAfter(hour, HourSteps * i + j)
    ensures var r := Sweep(items, w, existing, i, j, m, h);
      && ((forall n | HourSteps * i + j <= n < SlotCount :: ChoiceAt(items, w, month, hour, existing, n).None?) ==> r == "")
      && (forall n | HourSteps * i + j <= n < SlotCount && ChoiceAt(items, w, month, hour, existing, n).Some? &&
                     (forall n' | HourSteps * i + j <= n' < n :: ChoiceAt(items, w, month, hour, existing, n').None?) ::
            r == ChoiceAt(items, w, month, hour, existing, n).value)
    decreases MonthSteps - i, HourSteps - j
  {
    var n0 := HourSteps * i + j;
    if i >= MonthSteps {
      assert n0 >= SlotCount;
    } else if j >= HourSteps {
      assert HourSteps * (i + 1) + 0 == n0;
      SweepIsFirstChoice(items, w, month, hour, existing, i + 1, 0, NextMonth(m), h);
    } else {
      SlotNumber(month, n0, i, j);
      assert ChoiceAt(items, w, month, hour, existing, n0) == SlotChoice(items, w, m, h, existing);
      if SlotChoice(items, w, m, h, existing).None? {
        SweepIsFirstChoice(items, w, month, hour, existing, i, j + 1, m, NextHour(h));
      }
    }
  }

  /** The search returns the choice of the first slot that yields one, and "" when no slot does. */
  lemma BestMatchIsFirstChoice(items: seq<WallpaperConfigItem>, w: Weather, month: int, hour: int, existing: set<string>)
    ensures var r := BestMatch(items, w, month, hour, existing);
      && ((forall n | 0 <= n < SlotCount :: ChoiceAt(items, w, month, hour, existing, n).None?) ==> r == "")
      && (forall n | 0 <= n < SlotCount && ChoiceAt(items, w, month, hour, existing, n).Some? &&
                     (forall n' | 0 <= n' < n :: ChoiceAt(items, w, month, hour, existing, n').None?) ::
            r == ChoiceAt(items, w, month, hour, existing, n).value)
  {
    SweepIsFirstChoice(items, w, month, hour, existing, 0, 0, month, hour);
  }

  /** A slot that yields a path exists as soon as the search yields one: the first such slot. */
  lemma {:induction false} FirstChoosingSlot(items: seq<WallpaperConfigItem>, w: Weather, month: int, hour: int, existing: set<string>, n: nat)
    returns (first: nat)
    requires n < SlotCount && ChoiceAt(items, w, month, hour, existing, n).Some?
    ensures first <= n && ChoiceAt(items, w, month, hour, existing, first).Some?
    ensures forall n' | 0 <= n' < first :: ChoiceAt(items, w, month, hour, existing, n').None?
  {
    first := 0;
    while ChoiceAt(items, w, month, hour, existing, first).None?
      invariant first <= n
      invariant forall n' | 0 <= n' < first :: ChoiceAt(items, w, month, hour, existing, n').None?
      decreases n - first
    {
      first := first + 1;
    }
  }

  /** Some rule in scope at (m, h), with its file present, has this path. */
  ghost predicate FileBackedAt(items: seq<WallpaperConfigItem>, existing: set<string>, path: string, m: int, h: int)
  {
    exists it :: it in items && Matches(it, m, h) && it.wallpaperPath in existing && it.wallpaperPath == path
  }

  /**
   A non-empty result is the path of a rule, in scope at one of the slots
   the search visits, whose file exists.
   */
  lemma BestMatchIsFileBacked(items: seq<WallpaperConfigItem>, w: Weather, month: int, hour: int, existing: set<string>)
    ensures var r := BestMatch(items, w, month, hour, existing);
      r == "" || exists n | 0 <= n < SlotCount :: FileBackedAt(items, existing, r, SlotMonth(month, n), SlotHour(hour, n))
  {
    BestMatchIsFirstChoice(items, w, month, hour, existing);
    var r := BestMatch(items, w, month, hour, existing);
    if r != "" {
      var n :| 0 <= n < SlotCount && ChoiceAt(items, w, month, hour, existing, n).Some?;
      var first := FirstChoosingSlot(items, w, month, hour, existing, n);
      SlotChoiceIsFileBacked(items, w, SlotMonth(month, first), SlotHour(hour, first), existing);
      assert FileBackedAt(items, existing, r, SlotMonth(month, first), SlotHour(hour, first));
    }
  }

  /**
   The file-system probe never reports the empty path as existing, so in
   that setting "" is returned exactly when no visited slot yields a choice.
   */
  lemma EmptyResultMeansNoChoice(items: seq<WallpaperConfigItem>, w: Weather, month: int, hour: int, existing: set<string>)
    requires "" !in existing
    ensures BestMatch(items, w, month, hour, existing) == ""
        <==> forall n | 0 <= n < SlotCount :: ChoiceAt(items, w, month, hour, existing, n).None?
  {
    BestMatchIsFirstChoice(items, w, month, hour, existing);
    if n :| 0 <= n < SlotCount && ChoiceAt(items, w, month, hour, existing, n).Some? {
      var first := FirstChoosingSlot(items, w, month, hour, existing, n);
      SlotChoiceIsFileBacked(items, w, SlotMonth(month, first), SlotHour(hour, first), existing);
    }
  }

  /** With no rules at all the search yields "". */
  lemma NoRulesNoWallpaper(w: Weather, month: int, hour: int, existing: set<string>)
    ensures BestMatch([], w, month, hour, existing) == ""
  {
    BestMatchIsFileBacked([], w, month, hour, existing);
  }

  /** When no visited slot has a rule in scope whose file exists, the search yields "". */
  lemma NoFileBackedRuleNoWallpaper(items: seq<WallpaperConfigItem>, w: Weather, month: int, hour: int, existing: set<string>)
    requires forall n, it | 0 <= n < SlotCount && it in items && Matches(it, SlotMonth(month, n), SlotHour(hour, n)) ::
               it.wallpaperPath !in existing
    ensures BestMatch(items, w, month, hour, existing) == ""
  {
    BestMatchIsFileBacked(items, w, month, hour, existing);
  }

  // ---- Where the search goes ----

  /** From an hour of the clock's domain, k hour steps land on hour (h + k) mod 24. */
  lemma {:induction false} HourAfterClosedForm(h: int, k: nat)
    requires 0 <= h <= 23
    ensures HourAfter(h, k) == (h + k) % 24
  {
    if k > 0 {
      HourAfterClosedForm(h, k - 1);
    }
  }

  /** From a month of the clock's domain, k month steps land on month (m - 1 + k) mod 12 + 1. */
  lemma {:induction false} MonthAfterClosedForm(m: int, k: nat)
    requires 1 <= m <= 12
    ensures MonthAfter(m, k) == (m - 1 + k) % 12 + 1
  {
    if k > 0 {
      MonthAfterClosedForm(m, k - 1);
    }
  }

  /** Started inside the clock's domain, every slot stays in months 1..12 and hours 0..23. */
  lemma SlotsStayInDomain(month: int, hour: int, n: nat)
    requires 1 <= month <= 12 && 0 <= hour <= 23
    ensures 1 <= SlotMonth(month, n) <= 12 && 0 <= SlotHour(hour, n) <= 23
  {
    MonthAfterClosedForm(month, n / HourSteps);
    HourAfterClosedForm(hour, n);
  }

  /**
   The hour is not reset when the month advances: month step i starts at the
   hour reached after 23 * i hour steps, which is never the starting hour.
   */
  lemma HourCarriesOver(month: int, hour: int, i: nat)
    requires 0 <= hour <= 23 && 1 <= i < MonthSteps
    ensures SlotMonth(month, HourSteps * i) == MonthAfter(month, i)
    ensures SlotHour(hour, HourSteps * i) == (hour + 23 * i) % 24
    ensures SlotHour(hour, HourSteps * i) != hour
  {
    SlotNumber(month, HourSteps * i, i, 0);
    HourAfterClosedForm(hour, HourSteps * i);
    MonthStepMovesHourBack(hour, i);
  }

  /** 23 hour steps from an hour in 0..23, taken i times (i below 24), move the clock back i hours. */
  lemma MonthStepMovesHourBack(hour: int, i: nat)
    requires 0 <= hour <= 23 && 1 <= i < 24
    ensures (hour + 23 * i) % 24 == if hour >= i then hour - i else hour + 24 - i
  {
    var r := if hour >= i then hour - i else hour + 24 - i;
    var q := if hour >= i then i else i - 1;
    assert hour + 23 * i == 24 * q + r;
    assert (24 * q + r) / 24 == q;
  }

  /** The month before m on the calendar. */
  function PreviousMonth(m: int): int
  {
    if m == 1 then 12 else m - 1
  }

  /** The hour before h on the clock. */
  function PreviousHour(h: int): int
  {
    if h == 0 then 23 else h - 1
  }

  /** None of the visited slots lies in the month before the starting one; the eleventh month step reaches it only after the last slot. */
  lemma PreviousMonthNeverSearched(month: int, n: nat)
    requires 1 <= month <= 12 && n < SlotCount
    ensures SlotMonth(month, n) != PreviousMonth(month)
  {
    MonthAfterClosedForm(month, n / HourSteps);
  }

  /** The 23 slots of the starting month never include the hour before the starting one. */
  lemma SlotBeforeStartNeverSearched(month: int, hour: int, n: nat)
    requires 1 <= month <= 12 && 0 <= hour <= 23 && n < SlotCount
    ensures !(SlotMonth(month, n) == month && SlotHour(hour, n) == PreviousHour(hour))
  {
    MonthAfterClosedForm(month, n / HourSteps);
    HourAfterClosedForm(hour, n);
    if SlotMonth(month, n) == month {
      assert n / HourSteps == 0;
    }
  }

  /** A rule that holds only in the month before the current one is in scope at no visited slot. */
  lemma PreviousMonthRuleNeverInScope(items: seq<WallpaperConfigItem>, it: WallpaperConfigItem, month: int, hour: int, n: nat)
    requires 1 <= month <= 12 && n < SlotCount
    requires it.startMonth == PreviousMonth(month) && it.endMonth == PreviousMonth(month)
    ensures it !in Candidates(items, SlotMonth(month, n), SlotHour(hour, n))
  {
    PreviousMonthNeverSearched(month, n);
    CandidatesAreInScope(items, SlotMonth(month, n), SlotHour(hour, n));
  }

  /** Rules that hold only in the month before the current one are never chosen. */
  lemma PreviousMonthRulesNeverChosen(items: seq<WallpaperConfigItem>, w: Weather, month: int, hour: int, existing: set<string>)
    requires 1 <= month <= 12
    requires forall it | it in items :: it.startMonth == PreviousMonth(month) && it.endMonth == PreviousMonth(month)
    ensures BestMatch(items, w, month, hour, existing) == ""
  {
    forall n, it | 0 <= n < SlotCount && it in items
      ensures !Matches(it, SlotMonth(month, n), SlotHour(hour, n))
    {
      PreviousMonthNeverSearched(month, n);
    }
    NoFileBackedRuleNoWallpaper(items, w, month, hour, existing);
  }

  // ---- Examples of the tier order at the starting slot ----

  /** A single rule in scope now, for the current weather, with its file present, is chosen. */
  lemma SingleExactRuleChosen(it: WallpaperConfigItem, w: Weather, month: int, hour: int, existing: set<string>)
    requires Matches(it, month, hour) && it.weather == w && it.wallpaperPath in existing
    ensures BestMatch([it], w, month, hour, existing) == it.wallpaperPath
  {
    assert Candidates([it], month, hour) == [it];
  }

  /**
   When the rule for the current weather has no file, a Clear rule in scope
   at the same slot with its file present is chosen (at the Clear tier, or
   earlier when Clear is close to the current weather).
   */
  lemma ClearRuleChosenWhenExactFileMissing(x: WallpaperConfigItem, y: WallpaperConfigItem, w: Weather,
                                              month: int, hour: int, existing: set<string>)
    requires Matches(x, month, hour) && Matches(y, month, hour)
    requires x.weather == w && w != Clear && x.wallpaperPath !in existing
    requires y.weather == Clear && y.wallpaperPath in existing
    ensures BestMatch([x, y], w, month, hour, existing) == y.wallpaperPath
  {
    var c := [x, y];
    assert Candidates(c, month, hour) == c by {
      assert c[1..] == [y];
      assert Candidates([y], month, hour) == [y];
    }
    assert c[1..] == [y];
    assert FirstOfWeather(c, Clear) == Some(y);
    assert TierChoice(c, w, existing).Some?;
    TierChoiceIsFileBacked(c, w, existing);
  }

  /**
   Current weather Clear, the Clear rule's file missing and a Cloudy rule at
   the same slot with its file present: Cloudy is similar to Clear, so the
   Cloudy rule is chosen rather than nothing.
   */
  lemma SimilarRuleChosenWhenExactFileMissing(x: WallpaperConfigItem, y: WallpaperConfigItem,
                                                month: int, hour: int, existing: set<string>)
    requires Matches(x, month, hour) && Matches(y, month, hour)
    requires x.weather == Clear && x.wallpaperPath !in existing
    requires y.weather == Cloudy && y.wallpaperPath in existing
    ensures BestMatch([x, y], Clear, month, hour, existing) == y.wallpaperPath
  {
    var c := [x, y];
    assert Candidates(c, month, hour) == c by {
      assert c[1..] == [y];
      assert Candidates([y], month, hour) == [y];
    }
    FilteredTierStep(c, Similar, Clear, existing);
    assert c[1..] == [y];
    FilteredTierStep([y], Similar, Clear, existing);
  }

  /** A rule that is in scope at every month and every hour: its windows wrap all the way round. */
  predicate AlwaysInScope(it: WallpaperConfigItem)
  {
    it.startMonth == it.endMonth + 1 && it.startHour == it.endHour + 1
  }

  /**
   Only the first rule for the current weather is probed: with two Clear
   rules in scope everywhere, current weather Clear, and only the second
   rule's file present, the search yields "".
   */
  lemma LaterExactRuleNeverProbed(x: WallpaperConfigItem, y: WallpaperConfigItem, month: int, hour: int, existing: set<string>)
    requires AlwaysInScope(x) && AlwaysInScope(y)
    requires x.weather == Clear && y.weather == Clear
    requires x.wallpaperPath !in existing && y.wallpaperPath in existing
    ensures BestMatch([x, y], Clear, month, hour, existing) == ""
  {
    var c := [x, y];
    assert c[1..] == [y];
    FilteredTierStep(c, Similar, Clear, existing);
    FilteredTierStep(c, LessSimilar, Clear, existing);
    FilteredTierStep([y], Similar, Clear, existing);
    FilteredTierStep([y], LessSimilar, Clear, existing);
    forall n | 0 <= n < SlotCount ensures ChoiceAt(c, Clear, month, hour, existing, n).None? {
      var m, h := SlotMonth(month, n), SlotHour(hour, n);
      assert Candidates(c, m, h) == c by {
        assert Candidates([y], m, h) == [y];
      }
    }
    BestMatchIsFirstChoice(c, Clear, month, hour, existing);
  }
}
