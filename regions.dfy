/** The fixed table of known AWS regions (utils.py `REGIONS`) and the
    resolution of region patterns against it. */
module Regions {
  import opened Dicts
  import opened Glob
  import opened Wildcard

  /** Region code to display name, in the order the table lists them. */
  const RegionTable: Dict<string> := [
    ("ap-northeast-1", "Asia Pacific (Tokyo)"),
    ("ap-northeast-2", "Asia Pacific (Seoul)"),
    ("ap-northeast-3", "Asia Pacific (Osaka-Local)"),
    ("ap-south-1", "Asia Pacific (Mumbai)"),
    ("ap-southeast-1", "Asia Pacific (Singapore)"),
    ("ap-southeast-2", "Asia Pacific (Sydney)"),
    ("ca-central-1", "Canada (Central)"),
    ("cn-north-1", "China (Beijing)"),
    ("cn-northwest-1", "China (Ningxia)"),
    ("eu-central-1", "EU (Frankfurt)"),
    ("eu-north-1", "EU (Stockholm)"),
    ("eu-west-1", "EU (Ireland)"),
    ("eu-west-2", "EU (London)"),
    ("eu-west-3", "EU (Paris)"),
    ("sa-east-1", "South America (S\U{c3}\U{a3}o Paulo)"),
    ("us-east-1", "US East (N. Virginia)"),
    ("us-east-2", "US East (Ohio)"),
    ("us-gov-east-1", "AWS GovCloud (US-East)"),
    ("us-gov-west-1", "AWS GovCloud (US)"),
    ("us-west-1", "US West (N. California)"),
    ("us-west-2", "US West (Oregon)")
  ]

  /** No region code is listed twice. The pairs of rows are checked in
      three blocks: both among the first eleven, both among the last ten,
      and one of each. */
  lemma RegionTableIsDict()
    ensures DistinctKeys(RegionTable)
  {
    EarlyCodesDistinct();
    LateCodesDistinct();
    EarlyAndLateCodesDistinct();
  }

  lemma EarlyCodesDistinct()
    ensures forall i, j :: 0 <= i < j < 11 ==> RegionTable[i].0 != RegionTable[j].0
  {
  }

  lemma LateCodesDistinct()
    ensures forall i, j :: 11 <= i < j < 21 ==> RegionTable[i].0 != RegionTable[j].0
  {
  }

  lemma EarlyAndLateCodesDistinct()
    ensures forall i, j :: 0 <= i < 11 <= j < 21 ==> RegionTable[i].0 != RegionTable[j].0
  {
  }

  /** `get_region_names()`: the set of region codes. */
  function RegionNames(): (names: set<string>)
    ensures forall r :: r in names <==> r in Keys(RegionTable)
    ensures |names| == 21
  {
    RegionTableIsDict();
    KeySet(RegionTable)
  }

  /** `set(wildcard_filter(values=get_region_names(), patterns=...))` as the
      driver runs it: the known regions that the last `--region` pattern
      matches. The table order stands in for the iteration order of the name
      set, which the set conversion forgets. */
  function ResolveRegions(patterns: seq<string>): (regions: set<string>)
    ensures forall r :: r in regions <==>
              r in Keys(RegionTable) && patterns != [] && FnMatch(r, patterns[|patterns| - 1])
  {
    set r | r in WildcardFilter(Keys(RegionTable), patterns)
  }

  /** The regions the `--region` option means: the known regions that some
      pattern matches. */
  function IntendedResolveRegions(patterns: seq<string>): (regions: set<string>)
    ensures forall r :: r in regions <==> r in Keys(RegionTable) && WildcardMatch(r, patterns)
  {
    set r | r in IntendedWildcardFilter(Keys(RegionTable), patterns)
  }

  /** `us-east-*` matches exactly the codes that start with `us-east-`. */
  lemma UsEastMatches(r: string)
    ensures WildcardMatch(r, ["us-east-*"]) <==> |r| >= 8 && r[..8] == "us-east-"
  {
    OnePattern(r, "us-east-*");
    UsEastPlain();
    PrefixStarMatches("us-east-", r);
  }

  lemma UsEastPlain()
    ensures "us-east-" + "*" == "us-east-*"
    ensures forall i :: 0 <= i < |"us-east-"| ==> !IsMeta("us-east-"[i])
  {
  }
}
