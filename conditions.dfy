/**
 The closed set of weather conditions the daemon distinguishes, the two
 hand-authored "closeness" tables used by the fallback tiers, and the mapping
 from the weather provider's numeric condition codes onto that set.
 */
module Conditions {

  datatype Weather = Clear | Cloudy | Overcast | Rain | Thunderstorm | Snow | Fog

  /** Reference table of the similar tier: each unordered pair listed once. */
  const SimilarPairs: set<(Weather, Weather)> :=
    {(Clear, Cloudy), (Cloudy, Overcast), (Rain, Thunderstorm), (Snow, Cloudy), (Fog, Overcast)}

  /** Reference table of the less-similar tier: each unordered pair listed once. */
  const LessSimilarPairs: set<(Weather, Weather)> :=
    {(Clear, Overcast), (Cloudy, Rain), (Cloudy, Thunderstorm), (Snow, Clear), (Rain, Overcast), (Fog, Overcast)}

  /** The similar relation, with both orientations of every pair spelled out. */
  predicate IsSimilar(a: Weather, b: Weather)
  {
    match (a, b)
    case (Clear, Cloudy) | (Cloudy, Clear) => true
    case (Cloudy, Overcast) | (Overcast, Cloudy) => true
    case (Rain, Thunderstorm) | (Thunderstorm, Rain) => true
    case (Snow, Cloudy) | (Cloudy, Snow) => true
    case (Fog, Overcast) | (Overcast, Fog) => true
    case _ => false
  }

  /** The less-similar relation, with both orientations of every pair spelled out. */
  predicate IsLessSimilar(a: Weather, b: Weather)
  {
    match (a, b)
    case (Clear, Overcast) | (Overcast, Clear) => true
    case (Cloudy, Rain) | (Rain, Cloudy) => true
    case (Cloudy, Thunderstorm) | (Thunderstorm, Cloudy) => true
    case (Snow, Clear) | (Clear, Snow) => true
    case (Rain, Overcast) | (Overcast, Rain) => true
    case (Fog, Overcast) | (Overcast, Fog) => true
    case _ => false
  }

  /** The similar relation holds exactly for the pairs of its table, in either orientation. */
  lemma SimilarFollowsTable(a: Weather, b: Weather)
    ensures IsSimilar(a, b) <==> (a, b) in SimilarPairs || (b, a) in SimilarPairs
  {
  }

  /** The less-similar relation holds exactly for the pairs of its table, in either orientation. */
  lemma LessSimilarFollowsTable(a: Weather, b: Weather)
    ensures IsLessSimilar(a, b) <==> (a, b) in LessSimilarPairs || (b, a) in LessSimilarPairs
  {
  }

  lemma SimilarIsSymmetricAndIrreflexive(a: Weather, b: Weather)
    ensures IsSimilar(a, b) == IsSimilar(b, a)
    ensures !IsSimilar(a, a)
  {
  }

  lemma LessSimilarIsSymmetricAndIrreflexive(a: Weather, b: Weather)
    ensures IsLessSimilar(a, b) == IsLessSimilar(b, a)
    ensures !IsLessSimilar(a, a)
  {
  }

  /** Fog and Overcast is the one pair that both tables relate. */
  lemma FogOvercastInBothTables(a: Weather, b: Weather)
    ensures IsSimilar(a, b) && IsLessSimilar(a, b) <==> {a, b} == {Fog, Overcast}
  {
    if IsSimilar(a, b) && IsLessSimilar(a, b) {
      assert (a == Fog && b == Overcast) || (a == Overcast && b == Fog);
    }
    if {a, b} == {Fog, Overcast} {
      assert a in {Fog, Overcast} && b in {Fog, Overcast} && a != b by {
        assert Fog in {a, b} && Overcast in {a, b};
      }
    }
  }

  // Provider condition codes, grouped by the condition they map to.
  const CloudyCodes: set<int> := {1003, 1006, 1063, 1066, 1069}
  const OvercastCodes: set<int> := {1009}
  const FogCodes: set<int> := {1030, 1135, 1147}
  const RainCodes: set<int> :=
    {1150, 1153, 1168, 1171, 1180, 1183, 1186, 1189, 1192, 1195, 1198, 1201, 1240, 1243, 1246}
  const ThunderstormCodes: set<int> := {1087, 1273, 1276}
  /** Snow codes proper; sleet and freezing drizzle are in SleetCodes. */
  const SnowCodes: set<int> :=
    {1114, 1117, 1204, 1207, 1210, 1213, 1216, 1219, 1222, 1225, 1237, 1255, 1258, 1261, 1264, 1279, 1282}
  const SleetCodes: set<int> := {1072, 1249, 1252}

  /** Every code that maps to something other than the Clear fallback. */
  const NonClearCodes: set<int> :=
    CloudyCodes + OvercastCodes + FogCodes + RainCodes + ThunderstormCodes + SnowCodes + SleetCodes

  /** Maps a provider condition code to the closest condition; unknown codes fall back to Clear. */
  function WeatherFromCode(code: int): Weather
  {
    match code
    case 1000 => Clear
    case 1003 => Cloudy
    case 1006 | 1063 | 1066 | 1069 => Cloudy
    case 1009 => Overcast
    case 1030 | 1135 | 1147 => Fog
    case 1150 | 1153 | 1168 | 1171
       | 1180 | 1183 | 1186 | 1189 | 1192 | 1195
       | 1198 | 1201
       | 1240 | 1243 | 1246 => Rain
    case 1087 | 1273 | 1276 => Thunderstorm
    case 1114 | 1117
       | 1204 | 1207
       | 1210 | 1213 | 1216 | 1219 | 1222 | 1225
       | 1237
       | 1255 | 1258
       | 1261 | 1264
       | 1279 | 1282 => Snow
    case 1072 | 1249 | 1252 => Snow
    case _ => Clear
  }

  /** The group of codes a condition is reported for; Clear takes every unlisted code. */
  predicate InGroup(code: int, w: Weather)
  {
    match w
    case Clear => code !in NonClearCodes
    case Cloudy => code in CloudyCodes
    case Overcast => code in OvercastCodes
    case Fog => code in FogCodes
    case Rain => code in RainCodes
    case Thunderstorm => code in ThunderstormCodes
    case Snow => code in SnowCodes || code in SleetCodes
  }

  /** The mapping sends a code to a condition exactly when the code is in that condition's group. */
  lemma CodeMapsToItsGroup(code: int, w: Weather)
    ensures WeatherFromCode(code) == w <==> InGroup(code, w)
  {
    match w
    case Clear => ClearGroup(code);
    case Cloudy => CloudyGroup(code);
    case Overcast => OvercastGroup(code);
    case Fog => FogGroup(code);
    case Rain => RainGroup(code);
    case Thunderstorm => ThunderstormGroup(code);
    case Snow => SnowGroup(code);
  }

  lemma ClearGroup(code: int) ensures WeatherFromCode(code) == Clear <==> code !in NonClearCodes
  {
    if code in CloudyCodes { CloudyGroup(code); }
    else if code in OvercastCodes { OvercastGroup(code); }
    else if code in FogCodes { FogGroup(code); }
    else if code in RainCodes { RainGroup(code); }
    else if code in ThunderstormCodes { ThunderstormGroup(code); }
    else if code in SnowCodes || code in SleetCodes { SnowGroup(code); }
    else {
      assert code !in NonClearCodes;
      CloudyGroup(code); OvercastGroup(code); FogGroup(code); RainGroup(code);
      ThunderstormGroup(code); SnowGroup(code);
    }
  }
  lemma CloudyGroup(code: int) ensures WeatherFromCode(code) == Cloudy <==> code in CloudyCodes {}
  lemma OvercastGroup(code: int) ensures WeatherFromCode(code) == Overcast <==> code in OvercastCodes {}
  lemma FogGroup(code: int) ensures WeatherFromCode(code) == Fog <==> code in FogCodes {}
  lemma RainGroup(code: int) ensures WeatherFromCode(code) == Rain <==> code in RainCodes {}
  lemma ThunderstormGroup(code: int) ensures WeatherFromCode(code) == Thunderstorm <==> code in ThunderstormCodes {}
  lemma SnowGroup(code: int) ensures WeatherFromCode(code) == Snow <==> code in SnowCodes || code in SleetCodes {}

  /** A code the provider uses for each condition; WeatherFromCode takes it back. */
  function CodeFor(w: Weather): int
  {
    match w
    case Clear => 1000
    case Cloudy => 1003
    case Overcast => 1009
    case Rain => 1183
    case Thunderstorm => 1087
    case Snow => 1213
    case Fog => 1135
  }

  /** Every condition can be reported: the mapping is onto. */
  lemma EveryConditionHasCode(w: Weather)
    ensures WeatherFromCode(CodeFor(w)) == w
  {
  }

  /** Particular mappings, including the sleet codes treated as Snow. */
  lemma NamedCodeMappings()
    ensures WeatherFromCode(1000) == Clear && WeatherFromCode(1009) == Overcast
    ensures WeatherFromCode(1087) == Thunderstorm && WeatherFromCode(1273) == Thunderstorm
    ensures WeatherFromCode(1276) == Thunderstorm
    ensures WeatherFromCode(1072) == Snow && WeatherFromCode(1249) == Snow && WeatherFromCode(1252) == Snow
    ensures WeatherFromCode(1063) == Cloudy && WeatherFromCode(1066) == Cloudy && WeatherFromCode(1069) == Cloudy
  {
  }
}
