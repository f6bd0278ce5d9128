# Weather-aware wallpaper selection

A model of how the wallpaper daemon picks a wallpaper. The daemon starts from
the current weather condition and the current month and hour. Its
configuration is a list of rules. Each rule has:

- an hour window and a month window, either of which may wrap (start greater
  than end);
- the wallpaper file path;
- the weather it is meant for.

At each (month, hour) slot, the search collects the rules whose two windows
both contain that slot. It then tries four tiers in order and returns a path
from the first tier that succeeds:

1. the first rule for the exact weather, if its file exists;
2. the first rule for a *similar* weather whose file exists;
3. the first rule for a *less similar* weather whose file exists;
4. the first `Clear` rule, if its file exists.

When a slot yields nothing, the hour advances (23 wraps to 0). After every run
of hour steps, the month advances (12 wraps to 1). The search stops after a
fixed number of steps and then returns the empty path.

The loop bounds are modelled exactly as written (`1..12` months by `1..24`
hours). That is 11 month steps of 23 hour steps each, 253 slots in all. The
hour is carried over from one month step to the next, not reset. As a result:

- a rule that only applies in the month before the current one is never
  among the rules in scope at any visited slot, so it is never chosen
  (`Search.PreviousMonthRuleNeverInScope`);
- in the current month, the hour just before the current hour is never
  looked at;
- within a slot, only the *first* rule for the exact weather is probed. A
  later exact rule whose file exists is skipped: once the exact probe fails,
  the slot is decided by the later tiers (`Matching.SimilarTierDecides`
  through `Matching.ClearTierDecides`). For example, two Clear rules in scope
  everywhere under Clear weather, with only the second one's file, give ""
  (`Search.LaterExactRuleNeverProbed`).

Weather conditions come from the provider as numeric codes.
`Conditions.WeatherFromCode` maps them the way the daemon does: sleet and
freezing drizzle count as Snow, and every unknown code counts as Clear.

Modules:

- `Wrappers` — `Option`.
- `Conditions` — `Weather`, the two closeness tables, and the code mapping.
- `Matching` — configured rules, window containment, the rules in scope at a
  slot, and the four tiers at one slot.
- `Search` — the slot-by-slot search. It is specified by the function
  `BestMatch` and implemented by the method `GetBestWallpaperMatch`, which has
  the daemon's two counted loops. Lemmas about which slots are visited and
  what is returned complete it.

The clock and the file system are inputs to the model:

- the current month and hour are parameters;
- whether a path's file exists is membership in a set `existing` of paths.

## Model

| member | source | states |
|---|---|---|
| Conditions.IsSimilar | src/main.rs:320-330 | the similar relation, matched on the ordered pair as the source does; characterised by `SimilarFollowsTable` |
| Conditions.IsLessSimilar | src/main.rs:333-344 | the less-similar relation, matched on the ordered pair as the source does; characterised by `LessSimilarFollowsTable` |
| Conditions.WeatherFromCode | src/main.rs:286-317 | the code mapping, one match arm per source arm, with Clear for every other code; characterised by `CodeMapsToItsGroup` |
| Conditions.SimilarFollowsTable | src/main.rs:320-330 | two conditions are similar exactly when the pair, in either order, is one of Clear/Cloudy, Cloudy/Overcast, Rain/Thunderstorm, Snow/Cloudy, Fog/Overcast |
| Conditions.LessSimilarFollowsTable | src/main.rs:333-344 | two conditions are less similar exactly when the pair, in either order, is one of Clear/Overcast, Cloudy/Rain, Cloudy/Thunderstorm, Snow/Clear, Rain/Overcast, Fog/Overcast |
| Conditions.SimilarIsSymmetricAndIrreflexive | src/main.rs:320-330 | similarity does not depend on argument order, and no condition is similar to itself |
| Conditions.LessSimilarIsSymmetricAndIrreflexive | src/main.rs:333-344 | the same for the less-similar table |
| Conditions.FogOvercastInBothTables | src/main.rs:320-344 | Fog/Overcast is the only pair listed in both tables |
| Conditions.CodeMapsToItsGroup | src/main.rs:286-317 | a code is mapped to a condition exactly when it is in that condition's code group; Snow's group includes the sleet codes, and Clear takes 1000 and every code outside all groups |
| Conditions.ClearGroup | src/main.rs:286-317 | a code maps to Clear exactly when it is in none of the listed non-Clear groups |
| Conditions.CloudyGroup | src/main.rs:289-290 | a code maps to Cloudy exactly when it is 1003, 1006, 1063, 1066 or 1069 |
| Conditions.OvercastGroup | src/main.rs:291 | a code maps to Overcast exactly when it is 1009 |
| Conditions.FogGroup | src/main.rs:292 | a code maps to Fog exactly when it is 1030, 1135 or 1147 |
| Conditions.RainGroup | src/main.rs:295-298 | a code maps to Rain exactly when it is one of the fifteen rain codes |
| Conditions.ThunderstormGroup | src/main.rs:301 | a code maps to Thunderstorm exactly when it is 1087, 1273 or 1276 |
| Conditions.SnowGroup | src/main.rs:304-313 | a code maps to Snow exactly when it is a snow code or one of the sleet codes 1072, 1249, 1252 |
| Conditions.EveryConditionHasCode | src/main.rs:286-317 | every condition is produced by some code (the mapping is onto) |
| Conditions.NamedCodeMappings | src/main.rs:288-313 | particular codes map as listed: 1000 to Clear, 1009 to Overcast, 1087, 1273 and 1276 to Thunderstorm, the sleet codes 1072, 1249 and 1252 to Snow, and 1063, 1066 and 1069 to Cloudy |
| Matching.InWindow | src/main.rs:153-163 | window containment: a window whose start exceeds its end wraps, so it contains values from the start upward or up to the end |
| Matching.Candidates | src/main.rs:151-166 | the rules whose month and hour windows both contain the slot, in configuration order; characterised by `CandidatesAreInScope` |
| Matching.FirstOfWeather | src/main.rs:169-201 | `find` by weather: the first candidate with the given weather; characterised by `FirstOfWeatherIsFirst` |
| Matching.WithLikeness | src/main.rs:181-191 | the candidates related to the current weather by the similar or less-similar table, in order |
| Matching.FirstExisting | src/main.rs:183-192 | `find` by file existence: the first rule whose path is in `existing`; with `WithLikeness`, characterised by `FilteredTierPicksFirst` |
| Matching.TierChoice | src/main.rs:168-209 | the four tiers at one slot in source order, yielding nothing when no rule is in scope; characterised by the four `…TierDecides` lemmas |
| Matching.SlotChoice | src/main.rs:151-209 | the decision at one slot: the tiers among the rules in scope there; characterised by `SlotChoiceIsFileBacked` and the tier lemmas |
| Matching.FirstCandidateOfWeatherIsFirstRule | src/main.rs:151-171 | the exact (or Clear) lookup among the candidates finds the first configured rule in scope with that weather, and nothing exactly when there is none |
| Matching.FilteredCandidateIsFirstRule | src/main.rs:151-192 | a filtering tier among the candidates finds the first configured rule in scope that is related and has a file, and nothing exactly when there is none |
| Matching.CandidateTierStep | src/main.rs:151-192 | a filtering tier over the candidates takes the configured rules one at a time, in order |
| Matching.WrappedWindowIsComplementOfGap | src/main.rs:153-163 | a wrapped window (start greater than end) contains every value except those strictly between end and start |
| Matching.WrappedWindowExamples | src/main.rs:153-163 | the hour window 22..4 contains exactly hours 22, 23, 0-4, and the month window 11..2 exactly months 11, 12, 1, 2 |
| Matching.CandidatesAreInScope | src/main.rs:151-166 | the rules collected at a slot are exactly the configured rules whose month and hour windows both contain the slot, and there are no more of them than rules |
| Matching.FirstOfWeatherIsFirst | src/main.rs:169-171 | the lookup by weather finds nothing exactly when no candidate has that weather, and otherwise finds the candidate at the first index with it |
| Matching.FilteredTierPicksFirst | src/main.rs:181-192 | a filtering tier finds nothing exactly when no candidate is both related by the table and file-backed, and otherwise finds the first candidate that is both |
| Matching.FirstOfWeatherYieldsMember | src/main.rs:169-171 | what the lookup by weather finds is a candidate with that weather |
| Matching.FilteredTierYieldsMember | src/main.rs:181-192 | what a filtering tier finds is a candidate related to the weather whose file exists |
| Matching.TierChoiceIsFileBacked | src/main.rs:168-209 | a path chosen at a slot belongs to a candidate whose file exists and whose weather is exact, similar, less similar or Clear |
| Matching.SlotChoiceIsFileBacked | src/main.rs:151-209 | a path chosen at a slot belongs to a configured rule in scope at that slot whose file exists |
| Matching.ProbeFailsIffFirstHasNoFile | src/main.rs:169-178 | the exact (and Clear) probe fails exactly when the first candidate of that weather, if any, has no file |
| Matching.FirstIndexOfWeather | src/main.rs:169-171 | when some candidate has the weather, there is a first index holding it |
| Matching.ExactTierDecides | src/main.rs:169-177 | when the first exact-weather candidate has a file, its path is chosen |
| Matching.SimilarTierDecides | src/main.rs:178-187 | when the exact tier fails, the first similar candidate with a file is chosen, even if a later exact candidate has a file |
| Matching.LessSimilarTierDecides | src/main.rs:188-196 | when the exact and similar tiers fail, the first less-similar candidate with a file is chosen |
| Matching.ClearTierDecides | src/main.rs:197-207 | when the first three tiers fail, a path is chosen exactly when the first Clear candidate has a file, and it is that candidate's path |
| Matching.FogLessSimilarTierIsRedundant | src/main.rs:181-192 | under Fog weather, the less-similar tier filters the same candidates as the similar tier, so it never adds a pick |
| Matching.FogOvercastDecidedBySimilarTier | src/main.rs:181-187 | a file-backed Fog rule under Overcast weather, or Overcast rule under Fog weather, makes the similar tier yield a pick, so the less-similar tier is never reached |
| Search.NextHour | src/main.rs:211-214 | one hour step: add 1, then reset a value above 23 to 0; characterised by `HourAfterClosedForm` |
| Search.NextMonth | src/main.rs:218-221 | one month step: add 1, then reset a value above 12 to 1; characterised by `MonthAfterClosedForm` |
| Search.Sweep | src/main.rs:149-224 | the search from a loop state: the current slot's choice if any, otherwise the next hour, and after 23 hour steps the next month with the hour carried over; "" after 11 month steps; characterised by `SweepIsFirstChoice` |
| Search.BestMatch | src/main.rs:142-225 | the search from the current month and hour; what `GetBestWallpaperMatch` is proved to return, characterised by `BestMatchIsFirstChoice` |
| Search.EmptyResultMeansNoChoice | src/main.rs:149-224 | when the empty path is not an existing file, the search returns "" exactly when none of the 253 visited slots yields a choice |
| Search.MatchAtSlot | src/main.rs:151-209 | the body of the search at one slot yields exactly the tier choice among the rules in scope at that slot |
| Search.GetBestWallpaperMatch | src/main.rs:142-225 | the two counted loops, with the month and hour advanced and wrapped as the daemon does, return exactly the result of the slot-by-slot search; at most 253 slots are examined |
| Search.SweepIsFirstChoice | src/main.rs:149-224 | from any loop state, the search returns the choice of the first remaining slot that yields one, and "" when none does |
| Search.BestMatchIsFirstChoice | src/main.rs:149-224 | the search returns the choice of the first of the 253 visited slots that yields one, and "" when none does |
| Search.FirstChoosingSlot | src/main.rs:149-224 | when some visited slot yields a choice, there is a first one |
| Search.BestMatchIsFileBacked | src/main.rs:149-224 | a non-empty result is the path of a configured rule, in scope at a visited slot, whose file exists |
| Search.NoRulesNoWallpaper | src/main.rs:224 | with no rules the search returns "" |
| Search.NoFileBackedRuleNoWallpaper | src/main.rs:149-224 | when no visited slot has a rule in scope whose file exists, the search returns "" |
| Search.SlotNumber | src/main.rs:149-150 | slot j of month step i is slot number 23 * i + j, and it lies in the month reached after i month steps |
| Search.HourAfterClosedForm | src/main.rs:211-214 | from an hour in 0..23, k hour steps land on (hour + k) mod 24 |
| Search.MonthAfterClosedForm | src/main.rs:218-221 | from a month in 1..12, k month steps land on (month - 1 + k) mod 12 + 1 |
| Search.SlotsStayInDomain | src/main.rs:211-221 | starting from a real month and hour, every visited slot stays in months 1..12 and hours 0..23 |
| Search.HourCarriesOver | src/main.rs:149-221 | month step i (1 to 10) starts at hour (hour + 23 * i) mod 24, never the starting hour, because the hour is not reset between months |
| Search.PreviousMonthNeverSearched | src/main.rs:149-221 | none of the 253 visited slots lies in the month before the current one; the eleventh month step reaches it only after the last slot |
| Search.SlotBeforeStartNeverSearched | src/main.rs:149-214 | in the current month, the hour just before the current hour is never examined |
| Search.PreviousMonthRuleNeverInScope | src/main.rs:149-221 | a rule whose month window is only the month before the current one is not among the rules in scope at any of the 253 visited slots |
| Search.PreviousMonthRulesNeverChosen | src/main.rs:149-224 | when every rule's month window is only the month before the current one, the search returns "" |
| Search.SingleExactRuleChosen | src/main.rs:169-177 | a single rule in scope now, for the current weather, with its file, is chosen |
| Search.ClearRuleChosenWhenExactFileMissing | src/main.rs:169-207 | with exactly the two rules x then y in scope, x for the current weather (not Clear) without its file and y a Clear rule with its file, y's path is chosen |
| Search.SimilarRuleChosenWhenExactFileMissing | src/main.rs:169-187 | with exactly the two rules x then y in scope under Clear weather, x a Clear rule without its file and y a Cloudy rule with its file, y's path is chosen |
| Search.LaterExactRuleNeverProbed | src/main.rs:169-207 | with two Clear rules in scope everywhere, Clear weather and only the second rule's file present, the search returns "" |

## Left out

- The daemon's main loop is not modelled: the polling, the sleeping, the reload when the configuration changes, and skipping a wallpaper that is already set.
- I/O is not modelled: reading and parsing the configuration file, `get_config_path`, and the error paths for a missing or malformed configuration.
- `fetch_weather_condition` (the HTTP request to the weather provider and its JSON decoding) is not modelled. The model starts from the numeric code it yields, and the configuration's `api_key` and `location` fields are omitted.
- `set_wallpaper` (running the desktop's wallpaper command) is not modelled.
- Logging is not modelled; it has no effect on the result.
- The clock is not modelled: `Local::now()` becomes the `month` and `hour` parameters. They are not required to be in range, because the source does not check them.
- File existence is not modelled as a file-system call: `Path::exists` becomes membership in the `existing` set, which is assumed fixed during one search.
- Search.GetBestWallpaperMatch: the month, hour and window bounds are unbounded integers rather than 32-bit. The source adds 1 and then resets an hour above 23 to 0 (a month above 12 to 1). After the first step the hour is at most 23 (the month at most 12), so only a starting value of exactly the 32-bit maximum could overflow; the clock yields hours 0..23 and months 1..12.
- The set `existing` may contain "", a case the source cannot reach: probing the empty path never reports an existing file, so in the source "" always means no match. In the model that holds whenever "" is not in `existing` (`Search.EmptyResultMeansNoChoice`).
