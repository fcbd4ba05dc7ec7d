/**
 Extraction of the downloaded archive into temporary files. First every
 `copy-files` rule in order, each naming one member and a verbatim target
 path; then every `copy-patterns` rule in order, each taking the non-directory
 members whose full name matches its glob, in archive order, to
 `join(target-dir, basename(member))`. Each extracted member gets a fresh
 temporary file, so the temp-to-target dictionary of the script keeps
 insertion order, which is modelled here as a sequence.
 */
module Staging {
  import opened Records
  import Paths

  /** `fnmatch(name, pattern)`, left abstract. */
  type Matcher = (string, string) -> bool

  /** Opening a member by name succeeds exactly when some entry has that name. */
  predicate InArchive(archive: seq<Entry>, path: string) {
    exists k :: 0 <= k < |archive| && archive[k].filename == path
  }

  /** Archive entry `e` is taken by pattern rule `p`: it is not a directory
      and its full name matches the rule's glob. */
  predicate Selected(cfg: Config, archive: seq<Entry>, matches: Matcher, p: int, e: int) {
    && 0 <= p < |cfg.copyPatterns|
    && 0 <= e < |archive|
    && !archive[e].isDir
    && matches(archive[e].filename, cfg.copyPatterns[p].pattern)
  }

  /** Where a pattern rule sends an archive member. */
  function PatternTarget(rule: CopyPattern, filename: string): string {
    Paths.Join(rule.targetDir, Paths.Basename(filename))
  }

  /** A staged file carries the member and target its rule prescribes. */
  predicate Faithful(cfg: Config, archive: seq<Entry>, matches: Matcher, s: Staged) {
    if s.origin.ByPath? then
      && s.origin.rule < |cfg.copyFiles|
      && s.source == cfg.copyFiles[s.origin.rule].archivePath
      && s.target == cfg.copyFiles[s.origin.rule].targetPath
    else
      && Selected(cfg, archive, matches, s.origin.rule, s.origin.entry)
      && s.source == archive[s.origin.entry].filename
      && s.target == PatternTarget(cfg.copyPatterns[s.origin.rule], archive[s.origin.entry].filename)
  }

  /** The order in which the script's loops visit the rules: all `copy-files`
      rules in order, then pattern by pattern, and entry by entry within one. */
  predicate Before(a: Origin, b: Origin) {
    if a.ByPath? then b.ByPattern? || a.rule < b.rule
    else b.ByPattern? && (a.rule < b.rule || (a.rule == b.rule && a.entry < b.entry))
  }

  /** Staged files appear in strictly increasing rule order. */
  predicate Increasing(s: seq<Staged>) {
    forall k, l :: 0 <= k < l < |s| ==> Before(s[k].origin, s[l].origin)
  }

  /** Every staged file follows its rule. */
  predicate AllFaithful(cfg: Config, archive: seq<Entry>, matches: Matcher, s: seq<Staged>) {
    forall k :: 0 <= k < |s| ==> Faithful(cfg, archive, matches, s[k])
  }

  /** Every staged file comes from pattern rule `p` and an entry at or after `e`. */
  predicate OfRule(s: seq<Staged>, p: nat, e: nat) {
    forall k :: 0 <= k < |s| ==> s[k].origin.ByPattern? && s[k].origin.rule == p && e <= s[k].origin.entry
  }

  /** Every staged file comes from a pattern rule at or after `p`. */
  predicate OfRulesFrom(s: seq<Staged>, p: nat) {
    forall k :: 0 <= k < |s| ==> s[k].origin.ByPattern? && p <= s[k].origin.rule
  }

  /** Some file of `s` was staged by `o`. */
  ghost predicate HasOrigin(s: seq<Staged>, o: Origin) {
    exists k :: 0 <= k < |s| && s[k].origin == o
  }

  /** A file of either part is a file of the concatenation. */
  lemma HasOriginConcat(a: seq<Staged>, b: seq<Staged>, o: Origin)
    requires HasOrigin(a, o) || HasOrigin(b, o)
    ensures HasOrigin(a + b, o)
  {
    if HasOrigin(a, o) {
      var k :| 0 <= k < |a| && a[k].origin == o;
      assert (a + b)[k] == a[k];
    } else {
      var k :| 0 <= k < |b| && b[k].origin == o;
      assert (a + b)[|a| + k] == b[k];
    }
  }

  /** Two faithful stagings concatenate to a faithful one. */
  lemma AllFaithfulConcat(cfg: Config, archive: seq<Entry>, matches: Matcher, a: seq<Staged>, b: seq<Staged>)
    requires AllFaithful(cfg, archive, matches, a) && AllFaithful(cfg, archive, matches, b)
    ensures AllFaithful(cfg, archive, matches, a + b)
  {
    forall k | 0 <= k < |a + b|
      ensures Faithful(cfg, archive, matches, (a + b)[k])
    {
      if k >= |a| {
        assert (a + b)[k] == b[k - |a|];
      }
    }
  }

  /** The files of rule `p`, then those of later rules, all come from rule `p` or later. */
  lemma OfRulesFromConcat(a: seq<Staged>, b: seq<Staged>, p: nat)
    requires OfRule(a, p, 0) && OfRulesFrom(b, p + 1)
    ensures OfRulesFrom(a + b, p)
  {
    forall k | 0 <= k < |a + b|
      ensures (a + b)[k].origin.ByPattern? && p <= (a + b)[k].origin.rule
    {
      if k >= |a| {
        assert (a + b)[k] == b[k - |a|];
      }
    }
  }

  /** The files of one rule, followed by those of later rules, stay in order. */
  lemma IncreasingConcat(a: seq<Staged>, b: seq<Staged>, p: nat)
    requires Increasing(a) && OfRule(a, p, 0)
    requires Increasing(b) && OfRulesFrom(b, p + 1)
    ensures Increasing(a + b)
  {
    var r := a + b;
    forall k, l | 0 <= k < l < |r|
      ensures Before(r[k].origin, r[l].origin)
    {
      if l < |a| {
        assert r[k] == a[k] && r[l] == a[l];
      } else if k >= |a| {
        assert r[k] == b[k - |a|] && r[l] == b[l - |a|];
      } else {
        assert r[k] == a[k] && r[l] == b[l - |a|];
      }
    }
  }

  /** Some file is staged for every entry at or after `e` that rule `p` selects. */
  ghost predicate CoversEntries(cfg: Config, archive: seq<Entry>, matches: Matcher, s: seq<Staged>, p: nat, e: nat) {
    forall f :: e <= f && Selected(cfg, archive, matches, p, f) ==> HasOrigin(s, ByPattern(p, f))
  }

  /** Some file is staged for every entry any rule at or after `p` selects. */
  ghost predicate CoversRules(cfg: Config, archive: seq<Entry>, matches: Matcher, s: seq<Staged>, p: nat) {
    forall q, f :: p <= q && Selected(cfg, archive, matches, q, f) ==> HasOrigin(s, ByPattern(q, f))
  }

  /** Extraction ends with every file staged, or at the first `copy-files`
      member the archive does not have, with the files staged before it. */
  datatype Staging = Ready(staged: seq<Staged>) | Missing(staged: seq<Staged>, path: string)

  /** The number of non-directory entries whose name matches `pattern`. */
  function MatchCount(entries: seq<Entry>, pattern: string, matches: Matcher): nat {
    if |entries| == 0 then 0
    else
      var here := if !entries[0].isDir && matches(entries[0].filename, pattern) then 1 else 0;
      here + MatchCount(entries[1..], pattern, matches)
  }

  /** The sum of `MatchCount` over the pattern rules. */
  function TotalMatches(rules: seq<CopyPattern>, archive: seq<Entry>, matches: Matcher): nat {
    if |rules| == 0 then 0
    else MatchCount(archive, rules[0].pattern, matches) + TotalMatches(rules[1..], archive, matches)
  }

  /** The `copy-files` loop from rule `i` on; the file of rule `i` is the
      `i`-th temporary file created. */
  function StageByPath(cfg: Config, archive: seq<Entry>, i: nat): (r: Staging)
    requires i <= |cfg.copyFiles|
    ensures r.Ready? <==> forall j :: i <= j < |cfg.copyFiles| ==> InArchive(archive, cfg.copyFiles[j].archivePath)
    ensures r.Ready? ==> |r.staged| == |cfg.copyFiles| - i
    ensures r.Missing? ==>
      && i + |r.staged| < |cfg.copyFiles|
      && r.path == cfg.copyFiles[i + |r.staged|].archivePath
      && !InArchive(archive, r.path)
      && forall j :: i <= j < i + |r.staged| ==> InArchive(archive, cfg.copyFiles[j].archivePath)
    ensures forall k :: 0 <= k < |r.staged| ==>
      && r.staged[k].temp == i + k
      && r.staged[k].origin == ByPath(i + k)
      && r.staged[k].source == cfg.copyFiles[i + k].archivePath
      && r.staged[k].target == cfg.copyFiles[i + k].targetPath
    decreases |cfg.copyFiles| - i
  {
    if i == |cfg.copyFiles| then Ready([])
    else
      var rule := cfg.copyFiles[i];
      if !InArchive(archive, rule.archivePath) then Missing([], rule.archivePath)
      else
        var here := Staged(i, rule.archivePath, rule.targetPath, ByPath(i));
        match StageByPath(cfg, archive, i + 1)
        case Ready(rest) => Ready([here] + rest)
        case Missing(rest, path) => Missing([here] + rest, path)
  }

  /** The inner loop of pattern rule `p` over the archive entries from `e`
      on; the first file it stages is temporary file `next`. */
  function StageEntries(cfg: Config, archive: seq<Entry>, matches: Matcher, p: nat, e: nat, next: nat): (r: seq<Staged>)
    requires p < |cfg.copyPatterns| && e <= |archive|
    ensures |r| == MatchCount(archive[e..], cfg.copyPatterns[p].pattern, matches)
    ensures forall k :: 0 <= k < |r| ==> r[k].temp == next + k
    decreases |archive| - e
  {
    if e == |archive| then []
    else
      assert archive[e..][0] == archive[e] && archive[e..][1..] == archive[e + 1..];
      var entry := archive[e];
      var rule := cfg.copyPatterns[p];
      if entry.isDir || !matches(entry.filename, rule.pattern) then
        StageEntries(cfg, archive, matches, p, e + 1, next)
      else
        var here := Staged(next, entry.filename, PatternTarget(rule, entry.filename), ByPattern(p, e));
        [here] + StageEntries(cfg, archive, matches, p, e + 1, next + 1)
  }

  /** Every file the inner loop stages comes from rule `p` and an entry at or after `e`. */
  lemma {:induction false} StageEntriesOrigins(cfg: Config, archive: seq<Entry>, matches: Matcher, p: nat, e: nat, next: nat)
    requires p < |cfg.copyPatterns| && e <= |archive|
    ensures OfRule(StageEntries(cfg, archive, matches, p, e, next), p, e)
    decreases |archive| - e
  {
    if e < |archive| {
      var entry := archive[e];
      var rule := cfg.copyPatterns[p];
      var r := StageEntries(cfg, archive, matches, p, e, next);
      if entry.isDir || !matches(entry.filename, rule.pattern) {
        assert r == StageEntries(cfg, archive, matches, p, e + 1, next);
        StageEntriesOrigins(cfg, archive, matches, p, e + 1, next);
      } else {
        var rest := StageEntries(cfg, archive, matches, p, e + 1, next + 1);
        assert r == [Staged(next, entry.filename, PatternTarget(rule, entry.filename), ByPattern(p, e))] + rest;
        StageEntriesOrigins(cfg, archive, matches, p, e + 1, next + 1);
        forall k | 1 <= k < |r|
          ensures r[k].origin.ByPattern? && r[k].origin.rule == p && e <= r[k].origin.entry
        {
          assert r[k] == rest[k - 1];
        }
      }
    }
  }

  /** Every file the inner loop stages is a selected entry, with the target
      rule `p` prescribes. */
  lemma {:induction false} StageEntriesFaithful(cfg: Config, archive: seq<Entry>, matches: Matcher, p: nat, e: nat, next: nat)
    requires p < |cfg.copyPatterns| && e <= |archive|
    ensures AllFaithful(cfg, archive, matches, StageEntries(cfg, archive, matches, p, e, next))
    decreases |archive| - e
  {
    if e < |archive| {
      var entry := archive[e];
      var rule := cfg.copyPatterns[p];
      var r := StageEntries(cfg, archive, matches, p, e, next);
      if entry.isDir || !matches(entry.filename, rule.pattern) {
        assert r == StageEntries(cfg, archive, matches, p, e + 1, next);
        StageEntriesFaithful(cfg, archive, matches, p, e + 1, next);
      } else {
        var rest := StageEntries(cfg, archive, matches, p, e + 1, next + 1);
        assert r == [Staged(next, entry.filename, PatternTarget(rule, entry.filename), ByPattern(p, e))] + rest;
        StageEntriesFaithful(cfg, archive, matches, p, e + 1, next + 1);
        assert Selected(cfg, archive, matches, p, e);
        forall k | 1 <= k < |r|
          ensures Faithful(cfg, archive, matches, r[k])
        {
          assert r[k] == rest[k - 1];
        }
      }
    }
  }

  /** The inner loop stages in archive order. */
  lemma {:induction false} StageEntriesIncreasing(cfg: Config, archive: seq<Entry>, matches: Matcher, p: nat, e: nat, next: nat)
    requires p < |cfg.copyPatterns| && e <= |archive|
    ensures Increasing(StageEntries(cfg, archive, matches, p, e, next))
    decreases |archive| - e
  {
    if e < |archive| {
      var entry := archive[e];
      var rule := cfg.copyPatterns[p];
      if entry.isDir || !matches(entry.filename, rule.pattern) {
        StageEntriesIncreasing(cfg, archive, matches, p, e + 1, next);
      } else {
        var rest := StageEntries(cfg, archive, matches, p, e + 1, next + 1);
        StageEntriesIncreasing(cfg, archive, matches, p, e + 1, next + 1);
        StageEntriesOrigins(cfg, archive, matches, p, e + 1, next + 1);
        var r := StageEntries(cfg, archive, matches, p, e, next);
        forall k, l | 0 <= k < l < |r|
          ensures Before(r[k].origin, r[l].origin)
        {
          assert r[l] == rest[l - 1];
          if k > 0 {
            assert r[k] == rest[k - 1];
          }
        }
      }
    }
  }

  /** The inner loop stages every selected entry at or after `e`. */
  lemma {:induction false} StageEntriesComplete(cfg: Config, archive: seq<Entry>, matches: Matcher, p: nat, e: nat, next: nat)
    requires p < |cfg.copyPatterns| && e <= |archive|
    ensures CoversEntries(cfg, archive, matches, StageEntries(cfg, archive, matches, p, e, next), p, e)
    decreases |archive| - e
  {
    if e < |archive| {
      var entry := archive[e];
      var rule := cfg.copyPatterns[p];
      var r := StageEntries(cfg, archive, matches, p, e, next);
      if entry.isDir || !matches(entry.filename, rule.pattern) {
        StageEntriesComplete(cfg, archive, matches, p, e + 1, next);
      } else {
        var rest := StageEntries(cfg, archive, matches, p, e + 1, next + 1);
        StageEntriesComplete(cfg, archive, matches, p, e + 1, next + 1);
        var here := Staged(next, entry.filename, PatternTarget(rule, entry.filename), ByPattern(p, e));
        assert r == [here] + rest;
        assert HasOrigin([here], ByPattern(p, e)) by {
          assert [here][0].origin == ByPattern(p, e);
        }
        forall f | e <= f && Selected(cfg, archive, matches, p, f)
          ensures HasOrigin(r, ByPattern(p, f))
        {
          HasOriginConcat([here], rest, ByPattern(p, f));
        }
      }
    }
  }

  /** The outer loop over the pattern rules from `p` on; the first file it
      stages is temporary file `next`. */
  function StagePatterns(cfg: Config, archive: seq<Entry>, matches: Matcher, p: nat, next: nat): (r: seq<Staged>)
    requires p <= |cfg.copyPatterns|
    ensures |r| == TotalMatches(cfg.copyPatterns[p..], archive, matches)
    ensures forall k :: 0 <= k < |r| ==> r[k].temp == next + k
    decreases |cfg.copyPatterns| - p
  {
    if p == |cfg.copyPatterns| then []
    else
      var here := StageEntries(cfg, archive, matches, p, 0, next);
      assert cfg.copyPatterns[p..][0] == cfg.copyPatterns[p];
      assert cfg.copyPatterns[p..][1..] == cfg.copyPatterns[p + 1..];
      assert archive[0..] == archive;
      here + StagePatterns(cfg, archive, matches, p + 1, next + |here|)
  }

  /** One step of the pattern loop: rule `p`'s files, then the later rules' files. */
  lemma StagePatternsUnfold(cfg: Config, archive: seq<Entry>, matches: Matcher, p: nat, next: nat)
    requires p < |cfg.copyPatterns|
    ensures var here := StageEntries(cfg, archive, matches, p, 0, next);
      StagePatterns(cfg, archive, matches, p, next) == here + StagePatterns(cfg, archive, matches, p + 1, next + |here|)
  {
  }

  /** Every file the pattern loop stages comes from a rule at or after `p`. */
  lemma {:induction false} StagePatternsOrigins(cfg: Config, archive: seq<Entry>, matches: Matcher, p: nat, next: nat)
    requires p <= |cfg.copyPatterns|
    ensures OfRulesFrom(StagePatterns(cfg, archive, matches, p, next), p)
    decreases |cfg.copyPatterns| - p
  {
    if p < |cfg.copyPatterns| {
      var here := StageEntries(cfg, archive, matches, p, 0, next);
      var rest := StagePatterns(cfg, archive, matches, p + 1, next + |here|);
      StageEntriesOrigins(cfg, archive, matches, p, 0, next);
      StagePatternsOrigins(cfg, archive, matches, p + 1, next + |here|);
      StagePatternsUnfold(cfg, archive, matches, p, next);
      OfRulesFromConcat(here, rest, p);
    }
  }

  /** Every file the pattern loop stages is a selected entry of some rule,
      with the target that rule prescribes. */
  lemma {:induction false} StagePatternsFaithful(cfg: Config, archive: seq<Entry>, matches: Matcher, p: nat, next: nat)
    requires p <= |cfg.copyPatterns|
    ensures AllFaithful(cfg, archive, matches, StagePatterns(cfg, archive, matches, p, next))
    decreases |cfg.copyPatterns| - p
  {
    if p < |cfg.copyPatterns| {
      var here := StageEntries(cfg, archive, matches, p, 0, next);
      var rest := StagePatterns(cfg, archive, matches, p + 1, next + |here|);
      StageEntriesFaithful(cfg, archive, matches, p, 0, next);
      StagePatternsFaithful(cfg, archive, matches, p + 1, next + |here|);
      StagePatternsUnfold(cfg, archive, matches, p, next);
      AllFaithfulConcat(cfg, archive, matches, here, rest);
    }
  }

  /** The pattern loop stages in rule order, and entry order within a rule. */
  lemma {:induction false} StagePatternsIncreasing(cfg: Config, archive: seq<Entry>, matches: Matcher, p: nat, next: nat)
    requires p <= |cfg.copyPatterns|
    ensures Increasing(StagePatterns(cfg, archive, matches, p, next))
    decreases |cfg.copyPatterns| - p
  {
    if p < |cfg.copyPatterns| {
      var here := StageEntries(cfg, archive, matches, p, 0, next);
      var rest := StagePatterns(cfg, archive, matches, p + 1, next + |here|);
      StageEntriesIncreasing(cfg, archive, matches, p, 0, next);
      StageEntriesOrigins(cfg, archive, matches, p, 0, next);
      StagePatternsIncreasing(cfg, archive, matches, p + 1, next + |here|);
      StagePatternsOrigins(cfg, archive, matches, p + 1, next + |here|);
      StagePatternsUnfold(cfg, archive, matches, p, next);
      IncreasingConcat(here, rest, p);
    }
  }

  /** The pattern loop stages every selected entry of every rule from `p` on. */
  lemma {:induction false} StagePatternsComplete(cfg: Config, archive: seq<Entry>, matches: Matcher, p: nat, next: nat)
    requires p <= |cfg.copyPatterns|
    ensures CoversRules(cfg, archive, matches, StagePatterns(cfg, archive, matches, p, next), p)
    decreases |cfg.copyPatterns| - p
  {
    if p < |cfg.copyPatterns| {
      var here := StageEntries(cfg, archive, matches, p, 0, next);
      var rest := StagePatterns(cfg, archive, matches, p + 1, next + |here|);
      StageEntriesComplete(cfg, archive, matches, p, 0, next);
      StagePatternsComplete(cfg, archive, matches, p + 1, next + |here|);
      StagePatternsUnfold(cfg, archive, matches, p, next);
      forall q, f | p <= q && Selected(cfg, archive, matches, q, f)
        ensures HasOrigin(here + rest, ByPattern(q, f))
      {
        HasOriginConcat(here, rest, ByPattern(q, f));
      }
    }
  }

  /** Both extraction loops of the script. */
  function Stage(cfg: Config, archive: seq<Entry>, matches: Matcher): (r: Staging)
    ensures r.Ready? <==> forall i :: 0 <= i < |cfg.copyFiles| ==> InArchive(archive, cfg.copyFiles[i].archivePath)
    ensures r.Missing? ==>
      && |r.staged| < |cfg.copyFiles|
      && r.path == cfg.copyFiles[|r.staged|].archivePath
      && !InArchive(archive, r.path)
      && forall i :: 0 <= i < |r.staged| ==> InArchive(archive, cfg.copyFiles[i].archivePath)
    ensures forall k :: 0 <= k < |r.staged| ==> r.staged[k].temp == k
    ensures forall k :: 0 <= k < |r.staged| && k < |cfg.copyFiles| ==>
      && r.staged[k].origin == ByPath(k)
      && r.staged[k].source == cfg.copyFiles[k].archivePath
      && r.staged[k].target == cfg.copyFiles[k].targetPath
    ensures r.Ready? ==> |r.staged| == |cfg.copyFiles| + TotalMatches(cfg.copyPatterns, archive, matches)
  {
    assert cfg.copyPatterns[0..] == cfg.copyPatterns;
    match StageByPath(cfg, archive, 0)
    case Missing(done, path) => Missing(done, path)
    case Ready(byPath) => Ready(byPath + StagePatterns(cfg, archive, matches, 0, |byPath|))
  }

  /** Staged files follow the rules: `copy-files` targets verbatim, pattern
      targets under the rule's directory; nothing else is staged. */
  lemma StageFaithful(cfg: Config, archive: seq<Entry>, matches: Matcher)
    ensures AllFaithful(cfg, archive, matches, Stage(cfg, archive, matches).staged)
  {
    var r := Stage(cfg, archive, matches);
    if r.Ready? {
      var byPath := StageByPath(cfg, archive, 0).staged;
      StagePatternsFaithful(cfg, archive, matches, 0, |byPath|);
      var byPattern := StagePatterns(cfg, archive, matches, 0, |byPath|);
      forall k | |byPath| <= k < |r.staged|
        ensures Faithful(cfg, archive, matches, r.staged[k])
      {
        assert r.staged[k] == byPattern[k - |byPath|];
      }
    }
  }

  /** All `copy-files` mappings come first, in configuration order; then the
      pattern mappings, grouped by rule in configuration order and by archive
      order within a rule. */
  lemma StageInRuleOrder(cfg: Config, archive: seq<Entry>, matches: Matcher)
    ensures Increasing(Stage(cfg, archive, matches).staged)
  {
    var r := Stage(cfg, archive, matches);
    if r.Ready? {
      var byPath := StageByPath(cfg, archive, 0).staged;
      var byPattern := StagePatterns(cfg, archive, matches, 0, |byPath|);
      StagePatternsOrigins(cfg, archive, matches, 0, |byPath|);
      StagePatternsIncreasing(cfg, archive, matches, 0, |byPath|);
      forall k, l | 0 <= k < l < |r.staged|
        ensures Before(r.staged[k].origin, r.staged[l].origin)
      {
        if k >= |byPath| {
          assert r.staged[k] == byPattern[k - |byPath|] && r.staged[l] == byPattern[l - |byPath|];
        }
      }
    }
  }

  /** Every non-directory entry a pattern matches is staged for that pattern;
      an entry matched by two patterns is staged twice. */
  lemma StageComplete(cfg: Config, archive: seq<Entry>, matches: Matcher)
    requires Stage(cfg, archive, matches).Ready?
    ensures CoversRules(cfg, archive, matches, Stage(cfg, archive, matches).staged, 0)
  {
    var r := Stage(cfg, archive, matches).staged;
    var byPath := StageByPath(cfg, archive, 0).staged;
    var byPattern := StagePatterns(cfg, archive, matches, 0, |byPath|);
    StagePatternsComplete(cfg, archive, matches, 0, |byPath|);
    assert r == byPath + byPattern;
    forall p, e | Selected(cfg, archive, matches, p, e)
      ensures HasOrigin(r, ByPattern(p, e))
    {
      HasOriginConcat(byPath, byPattern, ByPattern(p, e));
    }
  }

  /** After the `copy-files` mappings come only pattern mappings. */
  lemma PatternMappingsFollowCopyFiles(cfg: Config, archive: seq<Entry>, matches: Matcher)
    requires Stage(cfg, archive, matches).Ready?
    ensures var r := Stage(cfg, archive, matches).staged;
      forall k :: |cfg.copyFiles| <= k < |r| ==> r[k].origin.ByPattern?
  {
    var r := Stage(cfg, archive, matches).staged;
    var byPath := StageByPath(cfg, archive, 0).staged;
    var byPattern := StagePatterns(cfg, archive, matches, 0, |byPath|);
    StagePatternsOrigins(cfg, archive, matches, 0, |byPath|);
    forall k | |cfg.copyFiles| <= k < |r|
      ensures r[k].origin.ByPattern?
    {
      assert r[k] == byPattern[k - |byPath|];
    }
  }

  /** A pattern mapping sends an entry to its own basename directly under
      the rule's target directory. */
  lemma PatternTargetsKeepBasename(cfg: Config, archive: seq<Entry>, matches: Matcher)
    ensures var r := Stage(cfg, archive, matches).staged;
      forall k :: 0 <= k < |r| && r[k].origin.ByPattern? ==>
        && Paths.Basename(r[k].target) == Paths.Basename(r[k].source)
        && r[k].origin.rule < |cfg.copyPatterns|
        && r[k].target == cfg.copyPatterns[r[k].origin.rule].targetDir
             + Paths.Separator(cfg.copyPatterns[r[k].origin.rule].targetDir)
             + Paths.Basename(r[k].source)
  {
    var r := Stage(cfg, archive, matches).staged;
    StageFaithful(cfg, archive, matches);
    forall k | 0 <= k < |r| && r[k].origin.ByPattern?
      ensures Paths.Basename(r[k].target) == Paths.Basename(r[k].source)
      ensures r[k].origin.rule < |cfg.copyPatterns|
      ensures r[k].target == cfg.copyPatterns[r[k].origin.rule].targetDir
             + Paths.Separator(cfg.copyPatterns[r[k].origin.rule].targetDir)
             + Paths.Basename(r[k].source)
    {
      assert Faithful(cfg, archive, matches, r[k]);
      var dir := cfg.copyPatterns[r[k].origin.rule].targetDir;
      Paths.JoinKeepsBasename(dir, r[k].source);
      Paths.JoinPlacesUnderDir(dir, r[k].source);
    }
  }

  /** An entry that two different rules select is staged twice, into two
      different temporary files. */
  lemma MatchedTwiceStagedTwice(cfg: Config, archive: seq<Entry>, matches: Matcher, p: nat, q: nat, e: nat)
    requires Stage(cfg, archive, matches).Ready?
    requires p != q && Selected(cfg, archive, matches, p, e) && Selected(cfg, archive, matches, q, e)
    ensures var r := Stage(cfg, archive, matches).staged;
      exists k, l :: 0 <= k < |r| && 0 <= l < |r| && k != l
        && r[k].origin == ByPattern(p, e) && r[l].origin == ByPattern(q, e)
        && r[k].temp != r[l].temp && r[k].source == r[l].source
  {
    var r := Stage(cfg, archive, matches).staged;
    StageComplete(cfg, archive, matches);
    StageFaithful(cfg, archive, matches);
    assert HasOrigin(r, ByPattern(p, e)) && HasOrigin(r, ByPattern(q, e));
    var k :| 0 <= k < |r| && r[k].origin == ByPattern(p, e);
    var l :| 0 <= l < |r| && r[l].origin == ByPattern(q, e);
    assert Faithful(cfg, archive, matches, r[k]) && Faithful(cfg, archive, matches, r[l]);
  }
}
