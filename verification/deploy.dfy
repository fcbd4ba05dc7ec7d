/**
 One run of the deploy script, start to end, as the sequence of effects it
 performs and the way it ends. The configuration is the parsed document the
 command-line argument names; the environment supplies what the run reads
 from outside: its argument vector, its effective user id, the provider's
 artifact listing, the archive served for each artifact id, and the glob
 matcher.
 */
module Deploy {
  import opened Records
  import Timestamps
  import Locator
  import Staging
  import Sequencer

  datatype Environment = Environment(
    argv: seq<string>,
    euid: int,
    listing: Locator.Listing,
    archiveOf: int -> seq<Entry>,
    matches: Staging.Matcher)

  /** The effects of a run in order, and how it ended. A run that hangs
      carries the requests for pages 1 to the larger of 1 and the number of
      listed pages; from there on it requests empty pages forever. */
  datatype Outcome = Outcome(trace: seq<Action>, ending: Ending)

  /** The script was given exactly one argument, the configuration path. */
  predicate WellInvoked(env: Environment) {
    |env.argv| == 2
  }

  /** The root check lets the run through. */
  predicate RootAllowed(config: Config, env: Environment) {
    config.allowRoot || env.euid != 0
  }

  /** Both gates passed: the run goes on to `sudo -v`. */
  predicate PassesGates(config: Config, env: Environment) {
    WellInvoked(env) && RootAllowed(config, env)
  }

  /** The sudo prompt and the "here we go" line. */
  const Prelude: seq<Action> := [SudoValidate, Say(HereWeGo)]

  /** The copy of the downloaded archive to `zip-location`, when one is
      configured. */
  function Saving(zipLocation: Option<string>): seq<Action> {
    if zipLocation.Some? then [SaveArchive(zipLocation.value)] else []
  }

  /** One temporary file written per staged member, in staging order. */
  function Extractions(staged: seq<Staged>): seq<Action> {
    seq(|staged|, k requires 0 <= k < |staged| => Extract(staged[k].temp, staged[k].source))
  }

  /** `a` is a listing request. */
  predicate IsListing(a: Action) {
    a.ListArtifacts?
  }

  /** No listing request anywhere in `t`. */
  predicate NoListing(t: seq<Action>) {
    forall i :: 0 <= i < |t| ==> !IsListing(t[i])
  }

  lemma NoListingConcat(a: seq<Action>, b: seq<Action>)
    requires NoListing(a) && NoListing(b)
    ensures NoListing(a + b)
  {
    assert forall i :: |a| <= i < |a + b| ==> (a + b)[i] == b[i - |a|];
  }

  /** No archive download anywhere in `t`. */
  predicate NoDownload(t: seq<Action>) {
    forall i :: 0 <= i < |t| ==> !t[i].DownloadArchive?
  }

  lemma NoDownloadConcat(a: seq<Action>, b: seq<Action>)
    requires NoDownload(a) && NoDownload(b)
    ensures NoDownload(a + b)
  {
    assert forall i :: |a| <= i < |a + b| ==> (a + b)[i] == b[i - |a|];
  }

  /** `a` touches the installed system: a service stop or start, a copy to a
      target, or the removal of a temporary file. */
  predicate IsDeployment(a: Action) {
    a.StopService? || a.Copy? || a.StartService? || a.Unlink?
  }

  /** The run from the extraction loops on, given the downloaded archive. */
  function FromArchive(config: Config, archive: seq<Entry>, matches: Staging.Matcher): (r: Outcome)
    ensures r.ending == Finished || (r.ending.Aborted? && r.ending.failure.MissingArchiveEntry?)
    ensures r.ending.Aborted? ==> forall i :: 0 <= i < |r.trace| ==> !IsDeployment(r.trace[i])
    ensures NoListing(r.trace) && NoDownload(r.trace)
  {
    match Staging.Stage(config, archive, matches)
    case Missing(done, path) => Outcome(Extractions(done), Aborted(MissingArchiveEntry(path)))
    case Ready(staged) =>
      var d := Sequencer.DeployTrace(staged, config.services);
      Sequencer.DeployTraceKinds(staged, config.services);
      var t := Extractions(staged) + d;
      assert forall i :: |staged| <= i < |t| ==> t[i] == d[i - |staged|];
      Outcome(t, Finished)
  }

  /** The run from the filter on, given the collected listing: an empty
      selection ends the run before anything is downloaded. */
  function FromSelection(config: Config, env: Environment, arts: seq<Artifact>): (r: Outcome)
    ensures r.ending == Aborted(NoMatchingArtifact) <==> forall a :: a in arts ==> !Locator.Wanted(a, config.artifact, config.branch)
    ensures r.ending == Aborted(NoMatchingArtifact) ==> r.trace == []
    ensures !r.ending.Hangs? && r.ending != Aborted(BadUsage) && r.ending != Aborted(RootRefused)
    ensures NoListing(r.trace)
  {
    match Locator.Pick(arts, config.artifact, config.branch)
    case None => Outcome([], Aborted(NoMatchingArtifact))
    case Some(chosen) => FromDownload(config, env, chosen.id)
  }

  /** The run from the download of artifact `id` on. */
  function FromDownload(config: Config, env: Environment, id: int): (r: Outcome)
    ensures |r.trace| >= 1 && r.trace[0] == DownloadArchive(id) && NoDownload(r.trace[1..])
    ensures NoListing(r.trace)
    ensures r.ending == Finished || (r.ending.Aborted? && r.ending.failure.MissingArchiveEntry?)
  {
    var rest := FromArchive(config, env.archiveOf(id), env.matches);
    var save := Saving(config.zipLocation);
    NoListingConcat(save, rest.trace);
    NoDownloadConcat(save, rest.trace);
    NoListingConcat([DownloadArchive(id)], save + rest.trace);
    assert ([DownloadArchive(id)] + (save + rest.trace))[1..] == save + rest.trace;
    Outcome([DownloadArchive(id)] + (save + rest.trace), rest.ending)
  }

  /** The run from the first listing request on. */
  function FromListing(config: Config, env: Environment): (r: Outcome)
    ensures r.ending.Hangs? <==> forall m :: 1 <= m ==> !Locator.Reached(env.listing, m)
    ensures r.ending != Aborted(BadUsage) && r.ending != Aborted(RootRefused)
    ensures |r.trace| >= 1 && r.trace[0] == ListArtifacts(1)
  {
    match Locator.Paginate(env.listing)
    case Endless(n) => Outcome(Locator.Requests(n), Hangs)
    case Collected(arts, n) =>
      var rest := FromSelection(config, env, arts);
      Outcome(Locator.Requests(n) + rest.trace, rest.ending)
  }

  /** The whole of `main`: the usage and root gates, then the rest. */
  function Run(config: Config, env: Environment): (r: Outcome)
    ensures r.ending == Aborted(BadUsage) <==> !WellInvoked(env)
    ensures r.ending == Aborted(RootRefused) <==> WellInvoked(env) && !RootAllowed(config, env)
    ensures !PassesGates(config, env) ==>
      && ExitStatus(r.ending) == Some(1)
      && |r.trace| <= 1
      && forall i :: 0 <= i < |r.trace| ==> r.trace[i].Say?
    ensures PassesGates(config, env) ==> |r.trace| >= 3 && r.trace[..3] == [SudoValidate, Say(HereWeGo), ListArtifacts(1)]
    ensures r.ending.Hangs? <==> PassesGates(config, env) && forall m :: 1 <= m ==> !Locator.Reached(env.listing, m)
  {
    if !WellInvoked(env) then
      // the usage line itself reads `argv[0]`, which fails when there is none
      Outcome(if |env.argv| == 0 then [] else [Say(UsageHelp)], Aborted(BadUsage))
    else if !RootAllowed(config, env) then
      Outcome([Say(RootWarning)], Aborted(RootRefused))
    else
      var rest := FromListing(config, env);
      Outcome(Prelude + rest.trace, rest.ending)
  }

  /** Page `n` is the first whose responses reach the reported total. */
  ghost predicate FirstReached(listing: Locator.Listing, n: nat) {
    && 1 <= n
    && Locator.Reached(listing, n)
    && forall m :: 1 <= m < n ==> !Locator.Reached(listing, m)
  }

  /** After the two-action prelude, `t` requests pages 1 to `n` in order,
      and makes no other listing request. */
  predicate ListsPages(t: seq<Action>, n: nat) {
    && 2 + n <= |t|
    && t[2..2 + n] == Locator.Requests(n)
    && NoListing(t[..2])
    && NoListing(t[2 + n..])
  }

  /** The listing requests of a run that does not hang: pages 1, 2, ... in
      order, up to the first page whose responses reach the reported total,
      and none after it. */
  lemma ListsPagesUntilTotalReached(config: Config, env: Environment)
    requires PassesGates(config, env) && !Run(config, env).ending.Hangs?
    ensures exists n: nat :: FirstReached(env.listing, n) && ListsPages(Run(config, env).trace, n)
  {
    NotHangingCollects(config, env);
    CollectedListsPages(config, env, Run(config, env).trace);
  }

  /** A run whose listing loop ends lists pages 1 to the first that reaches the total. */
  lemma CollectedListsPages(config: Config, env: Environment, t: seq<Action>)
    requires Locator.Paginate(env.listing).Collected?
    requires t == Prelude + FromListing(config, env).trace
    ensures exists n: nat :: FirstReached(env.listing, n) && ListsPages(t, n)
  {
    var n := ListingRequestsFirst(config, env);
    PreludeIsQuiet();
    ListsPagesAfterPrelude(t, Prelude, FromListing(config, env).trace, n);
    ListsPagesWitness(env.listing, t, n);
  }

  /** `sudo -v` and the greeting neither list nor download. */
  lemma PreludeIsQuiet()
    ensures |Prelude| == 2 && NoListing(Prelude) && NoDownload(Prelude)
  {
  }

  /** `t` requests pages 1 to `n` in order, then makes no listing request. */
  predicate StartsWithRequests(t: seq<Action>, n: nat) {
    n <= |t| && t[..n] == Locator.Requests(n) && NoListing(t[n..])
  }

  /** The page count `n` witnesses the listing property. Proof plumbing only:
      it keeps the existential out of the larger contexts that mention `Run`. */
  lemma ListsPagesWitness(listing: Locator.Listing, t: seq<Action>, n: nat)
    requires FirstReached(listing, n) && ListsPages(t, n)
    ensures exists n: nat :: FirstReached(listing, n) && ListsPages(t, n)
  {
  }

  /** The listing property of the prelude followed by the rest of the run. */
  lemma ListsPagesAfterPrelude(t: seq<Action>, pre: seq<Action>, rest: seq<Action>, n: nat)
    requires t == pre + rest
    requires |pre| == 2 && NoListing(pre)
    requires StartsWithRequests(rest, n)
    ensures ListsPages(t, n)
  {
    assert t[..2] == pre;
    assert t[2..2 + n] == rest[..n];
    assert t[2 + n..] == rest[n..];
  }

  /** The listing part of the run: pages 1 to the first that reaches the
      total, then nothing but later steps. */
  lemma ListingRequestsFirst(config: Config, env: Environment) returns (n: nat)
    requires Locator.Paginate(env.listing).Collected?
    ensures FirstReached(env.listing, n)
    ensures StartsWithRequests(FromListing(config, env).trace, n)
  {
    var p := Locator.Paginate(env.listing);
    n := p.pagesRequested;
    PaginateStopsAtFirstReached(env.listing);
    var rest := FromSelection(config, env, p.artifacts);
    var reqs := Locator.Requests(n);
    var t := reqs + rest.trace;
    assert t[..n] == reqs;
    assert t[n..] == rest.trace;
  }

  lemma NotHangingCollects(config: Config, env: Environment)
    requires PassesGates(config, env) && !Run(config, env).ending.Hangs?
    ensures Locator.Paginate(env.listing).Collected?
    ensures Run(config, env).trace == Prelude + FromListing(config, env).trace
  {
  }

  lemma PaginateStopsAtFirstReached(listing: Locator.Listing)
    requires Locator.Paginate(listing).Collected?
    ensures FirstReached(listing, Locator.Paginate(listing).pagesRequested)
  {
  }

  /** A run ends for want of a matching artifact exactly when it passes the
      gates, the listing loop ends, and no collected record has the wanted
      name and branch; such a run downloads nothing. */
  lemma NoMatchingArtifactIff(config: Config, env: Environment)
    ensures Run(config, env).ending == Aborted(NoMatchingArtifact) <==>
      && PassesGates(config, env)
      && (exists n: nat :: FirstReached(env.listing, n)
           && forall a :: a in Locator.Prefix(env.listing.pages, n) ==> !Locator.Wanted(a, config.artifact, config.branch))
    ensures Run(config, env).ending == Aborted(NoMatchingArtifact) ==>
      && ExitStatus(Run(config, env).ending) == Some(1)
      && NoDownload(Run(config, env).trace)
  {
    if PassesGates(config, env) {
      var p := Locator.Paginate(env.listing);
      if p.Collected? {
        CollectedTrace(config, env);
        OnlyFirstReached(env.listing, p.pagesRequested);
        if Run(config, env).ending == Aborted(NoMatchingArtifact) {
          ListingIsQuiet(p.pagesRequested);
        }
      }
    }
  }

  /** The first page that reaches the total is the only such page. */
  lemma OnlyFirstReached(listing: Locator.Listing, n: nat)
    requires FirstReached(listing, n)
    ensures forall n' :: FirstReached(listing, n') <==> n' == n
  {
    forall n' | FirstReached(listing, n')
      ensures n' == n
    {
      FirstReachedUnique(listing, n, n');
    }
  }

  lemma FirstReachedUnique(listing: Locator.Listing, n: nat, n': nat)
    requires FirstReached(listing, n) && FirstReached(listing, n')
    ensures n == n'
  {
  }

  /** Artifact `id` is the first of the freshest records among the wanted
      ones of `arts`. */
  ghost predicate ChoosesFreshest(config: Config, arts: seq<Artifact>, id: int) {
    var w := Locator.FilterWanted(arts, config.artifact, config.branch);
    exists j :: Locator.FreshestFirst(w, j) && w[j].id == id
  }

  /** The prelude and the listing requests download nothing. */
  lemma ListingIsQuiet(n: nat)
    ensures NoDownload(Prelude + Locator.Requests(n))
  {
  }

  /** A download inside `pre + rest` that `pre` does not hold sits in `rest`. */
  lemma DownloadInSuffix(pre: seq<Action>, rest: seq<Action>, i: int)
    requires NoDownload(pre) && 0 <= i < |pre + rest| && (pre + rest)[i].DownloadArchive?
    ensures |pre| <= i && rest[i - |pre|] == (pre + rest)[i]
  {
  }

  /** Within the run from the filter on, the only download is the first
      action, and it fetches the selected record. */
  lemma SelectionDownload(config: Config, env: Environment, arts: seq<Artifact>, i: int)
    requires 0 <= i < |FromSelection(config, env, arts).trace|
    requires FromSelection(config, env, arts).trace[i].DownloadArchive?
    ensures i == 0
    ensures Locator.Pick(arts, config.artifact, config.branch).Some?
    ensures FromSelection(config, env, arts).trace[i].artifactId
      == Locator.Pick(arts, config.artifact, config.branch).value.id
  {
  }

  /** A download only happens once the gates are passed and the listing loop
      has ended. */
  lemma DownloadMeansCollected(config: Config, env: Environment, i: int)
    requires 0 <= i < |Run(config, env).trace| && Run(config, env).trace[i].DownloadArchive?
    ensures PassesGates(config, env) && Locator.Paginate(env.listing).Collected?
  {
    if PassesGates(config, env) {
      var n := Locator.Paginate(env.listing).pagesRequested;
      assert Run(config, env).trace == Prelude + FromListing(config, env).trace;
    }
  }

  /** The trace of a run whose listing loop ends: the prelude, the listing
      requests, and the rest of the run from the filter on. */
  lemma CollectedTrace(config: Config, env: Environment)
    requires PassesGates(config, env) && Locator.Paginate(env.listing).Collected?
    ensures var p := Locator.Paginate(env.listing);
      Run(config, env).trace == (Prelude + Locator.Requests(p.pagesRequested)) + FromSelection(config, env, p.artifacts).trace
    ensures Run(config, env).ending == FromSelection(config, env, Locator.Paginate(env.listing).artifacts).ending
  {
  }

  /** Where a download sits in a run: right after the listing requests, and
      it fetches the record the selection picks from the collected listing. */
  lemma DownloadPosition(config: Config, env: Environment, i: int)
    requires 0 <= i < |Run(config, env).trace| && Run(config, env).trace[i].DownloadArchive?
    ensures PassesGates(config, env) && Locator.Paginate(env.listing).Collected?
    ensures i == 2 + Locator.Paginate(env.listing).pagesRequested
    ensures var c := Locator.Pick(Locator.Paginate(env.listing).artifacts, config.artifact, config.branch);
      c.Some? && Run(config, env).trace[i].artifactId == c.value.id
  {
    DownloadMeansCollected(config, env, i);
    CollectedTrace(config, env);
    var p := Locator.Paginate(env.listing);
    var pre := Prelude + Locator.Requests(p.pagesRequested);
    ListingIsQuiet(p.pagesRequested);
    var sel := FromSelection(config, env, p.artifacts).trace;
    DownloadInSuffix(pre, sel, i);
    SelectionDownload(config, env, p.artifacts, i - |pre|);
  }

  /** The archive a run downloads is the first of the freshest wanted
      records of the listing it collected. */
  lemma DownloadsFreshestWanted(config: Config, env: Environment, i: int)
    requires 0 <= i < |Run(config, env).trace| && Run(config, env).trace[i].DownloadArchive?
    ensures exists n: nat ::
      FirstReached(env.listing, n) && ChoosesFreshest(config, Locator.Prefix(env.listing.pages, n), Run(config, env).trace[i].artifactId)
  {
    DownloadPosition(config, env, i);
    PaginateStopsAtFirstReached(env.listing);
  }

  /** A run downloads at most one archive. */
  lemma DownloadsOnce(config: Config, env: Environment, i: int, k: int)
    requires 0 <= i < |Run(config, env).trace| && Run(config, env).trace[i].DownloadArchive?
    requires 0 <= k < |Run(config, env).trace| && Run(config, env).trace[k].DownloadArchive?
    ensures i == k
  {
    DownloadPosition(config, env, i);
    DownloadPosition(config, env, k);
  }

  /** The artifact a run downloads, if its listing loop ends and some
      collected record is wanted. */
  function Chosen(config: Config, env: Environment): Option<Artifact> {
    match Locator.Paginate(env.listing)
    case Endless(_) => None
    case Collected(arts, _) => Locator.Pick(arts, config.artifact, config.branch)
  }

  /** Nothing in `t` belongs to the deployment phase, and nothing in it
      writes a temporary file. */
  predicate Preparatory(t: seq<Action>) {
    forall i :: 0 <= i < |t| ==> Sequencer.Phase(t[i]) == 6 && !t[i].Extract?
  }

  /** Everything a run does before the extraction loops, given the artifact
      it downloads. */
  function Head(config: Config, env: Environment, id: int): seq<Action>
    requires Locator.Paginate(env.listing).Collected?
  {
    Prelude + Locator.Requests(Locator.Paginate(env.listing).pagesRequested) + [DownloadArchive(id)] + Saving(config.zipLocation)
  }

  lemma HeadIsPreparatory(config: Config, env: Environment, id: int)
    requires Locator.Paginate(env.listing).Collected?
    ensures Preparatory(Head(config, env, id))
    ensures NoDeployment(Head(config, env, id))
    ensures DownloadArchive(id) in Head(config, env, id)
  {
    var n := Locator.Paginate(env.listing).pagesRequested;
    var h := Head(config, env, id);
    assert h[2 + n] == DownloadArchive(id);
  }

  /** A run that gets as far as the extraction loops has passed the gates,
      ended its listing loop and picked an artifact. */
  lemma ReachesArchive(config: Config, env: Environment)
    requires Run(config, env).ending == Finished || (Run(config, env).ending.Aborted? && Run(config, env).ending.failure.MissingArchiveEntry?)
    ensures PassesGates(config, env) && Locator.Paginate(env.listing).Collected? && Chosen(config, env).Some?
  {
    if PassesGates(config, env) && Locator.Paginate(env.listing).Collected? {
      var arts := Locator.Paginate(env.listing).artifacts;
      assert Run(config, env).ending == FromSelection(config, env, arts).ending;
    }
  }

  /** Such a run is its head followed by the extraction loops and what
      follows them, and ends the way they end. */
  lemma ArchiveSuffix(config: Config, env: Environment)
    requires PassesGates(config, env) && Locator.Paginate(env.listing).Collected? && Chosen(config, env).Some?
    ensures var id := Chosen(config, env).value.id;
      var rest := FromArchive(config, env.archiveOf(id), env.matches);
      && Run(config, env).trace == Head(config, env, id) + rest.trace
      && Run(config, env).ending == rest.ending
  {
    var id := Chosen(config, env).value.id;
    var rest := FromArchive(config, env.archiveOf(id), env.matches);
    CollectedTrace(config, env);
    var arts := Locator.Paginate(env.listing).artifacts;
    var n := Locator.Paginate(env.listing).pagesRequested;
    DownloadShape(config, env, arts, id);
    Reassociate(Prelude + Locator.Requests(n), [DownloadArchive(id)], Saving(config.zipLocation), rest.trace);
  }

  /** The run from the filter on, once an artifact is selected. */
  lemma DownloadShape(config: Config, env: Environment, arts: seq<Artifact>, id: int)
    requires Locator.Pick(arts, config.artifact, config.branch).Some?
    requires id == Locator.Pick(arts, config.artifact, config.branch).value.id
    ensures var rest := FromArchive(config, env.archiveOf(id), env.matches);
      && FromSelection(config, env, arts).trace == [DownloadArchive(id)] + (Saving(config.zipLocation) + rest.trace)
      && FromSelection(config, env, arts).ending == rest.ending
  {
  }

  /** Regrouping of a concatenation; proof plumbing only, kept separate so that
      the callers' contexts stay small. */
  lemma Reassociate(a: seq<Action>, b: seq<Action>, c: seq<Action>, d: seq<Action>)
    ensures a + (b + (c + d)) == a + b + c + d
  {
  }

  /** Copy-files rule `k` names the first member the archive lacks. */
  ghost predicate FirstMissing(config: Config, archive: seq<Entry>, k: int) {
    && 0 <= k < |config.copyFiles|
    && !Staging.InArchive(archive, config.copyFiles[k].archivePath)
    && forall j :: 0 <= j < k ==> Staging.InArchive(archive, config.copyFiles[j].archivePath)
  }

  /** When the extraction loops stop at a missing member, they have written
      one temporary file per earlier copy-files rule, and nothing else. */
  lemma ArchiveMissing(config: Config, archive: seq<Entry>, matches: Staging.Matcher)
    requires FromArchive(config, archive, matches).ending.Aborted?
    ensures var r := FromArchive(config, archive, matches);
      && FirstMissing(config, archive, |r.trace|)
      && r.ending.failure == MissingArchiveEntry(config.copyFiles[|r.trace|].archivePath)
      && forall j :: 0 <= j < |r.trace| ==> r.trace[j] == Extract(j, config.copyFiles[j].archivePath)
  {
  }

  /** When the extraction loops finish, the deployment phase follows them. */
  lemma ArchiveFinished(config: Config, archive: seq<Entry>, matches: Staging.Matcher)
    requires FromArchive(config, archive, matches).ending == Finished
    ensures Staging.Stage(config, archive, matches).Ready?
    ensures var staged := Staging.Stage(config, archive, matches).staged;
      FromArchive(config, archive, matches).trace == Extractions(staged) + Sequencer.DeployTrace(staged, config.services)
  {
  }

  /** No action of `t` touches the installed system. */
  predicate NoDeployment(t: seq<Action>) {
    forall i :: 0 <= i < |t| ==> !IsDeployment(t[i])
  }

  lemma NoDeploymentConcat(a: seq<Action>, b: seq<Action>)
    requires NoDeployment(a) && NoDeployment(b)
    ensures NoDeployment(a + b)
  {
    assert forall i :: |a| <= i < |a + b| ==> (a + b)[i] == b[i - |a|];
  }

  /** A run that stops at a missing archive member has downloaded the chosen
      artifact, but stops, copies, starts and deletes nothing. */
  lemma MissingEntryTouchesNothing(config: Config, env: Environment)
    requires Run(config, env).ending.Aborted? && Run(config, env).ending.failure.MissingArchiveEntry?
    ensures NoDeployment(Run(config, env).trace)
    ensures Chosen(config, env).Some? && DownloadArchive(Chosen(config, env).value.id) in Run(config, env).trace
  {
    ReachesArchive(config, env);
    ArchiveSuffix(config, env);
    var id := Chosen(config, env).value.id;
    var h := Head(config, env, id);
    var r := FromArchive(config, env.archiveOf(id), env.matches);
    HeadIsPreparatory(config, env, id);
    NoDeploymentConcat(h, r.trace);
  }

  /** The member that stops such a run is the first copy-files member the
      archive lacks, and the temporary files of all earlier copy-files rules
      were written; as nothing is deleted, they stay behind. */
  lemma MissingEntryLeaksTemps(config: Config, env: Environment)
    requires Run(config, env).ending.Aborted? && Run(config, env).ending.failure.MissingArchiveEntry?
    ensures Chosen(config, env).Some?
    ensures exists k: nat ::
      && FirstMissing(config, env.archiveOf(Chosen(config, env).value.id), k)
      && Run(config, env).ending.failure.path == config.copyFiles[k].archivePath
      && forall j :: 0 <= j < k ==> Extract(j, config.copyFiles[j].archivePath) in Run(config, env).trace
  {
    ReachesArchive(config, env);
    ArchiveSuffix(config, env);
    var id := Chosen(config, env).value.id;
    var r := FromArchive(config, env.archiveOf(id), env.matches);
    ArchiveMissing(config, env.archiveOf(id), env.matches);
    var k := |r.trace|;
    forall j | 0 <= j < k
      ensures Extract(j, config.copyFiles[j].archivePath) in Run(config, env).trace
    {
      assert r.trace[j] in r.trace;
    }
  }

  /** The extraction loops' outcome for the artifact a run downloads. */
  function StagedOf(config: Config, env: Environment): Staging.Staging
    requires Chosen(config, env).Some?
  {
    Staging.Stage(config, env.archiveOf(Chosen(config, env).value.id), env.matches)
  }

  /** A finished run is its head, one extraction per staged file, and the
      deployment phase over the staged files. */
  lemma FinishedShape(config: Config, env: Environment)
    requires Run(config, env).ending == Finished
    ensures Locator.Paginate(env.listing).Collected? && Chosen(config, env).Some? && StagedOf(config, env).Ready?
    ensures var staged := StagedOf(config, env).staged;
      Run(config, env).trace
        == (Head(config, env, Chosen(config, env).value.id) + Extractions(staged)) + Sequencer.DeployTrace(staged, config.services)
  {
    ReachesArchive(config, env);
    ArchiveSuffix(config, env);
    var id := Chosen(config, env).value.id;
    ArchiveFinished(config, env.archiveOf(id), env.matches);
  }

  /** Actions before the deployment phase fall outside every phase of it. */
  lemma OfPhaseAfterPreparation(pre: seq<Action>, d: seq<Action>, n: nat)
    requires forall i :: 0 <= i < |pre| ==> Sequencer.Phase(pre[i]) == 6
    requires n < 6
    ensures Sequencer.OfPhase(pre + d, n) == Sequencer.OfPhase(d, n)
  {
    Sequencer.OfPhaseConcat(pre, d, n);
    Sequencer.OfPhaseUniform(pre, 6, n);
  }

  /** Head and extractions are all preparation. */
  lemma PreparationPhase(config: Config, env: Environment, id: int, staged: seq<Staged>)
    requires Locator.Paginate(env.listing).Collected?
    ensures var pre := Head(config, env, id) + Extractions(staged);
      forall i :: 0 <= i < |pre| ==> Sequencer.Phase(pre[i]) == 6
  {
    HeadIsPreparatory(config, env, id);
    var h := Head(config, env, id);
    var e := Extractions(staged);
    assert forall i :: |h| <= i < |h + e| ==> (h + e)[i] == e[i - |h|];
  }

  /** In a finished run every service is stopped, every staged file copied
      to its target, every service started and every temporary file deleted,
      each phase in configuration or staging order; with services, the run
      then waits and reports their status. */
  lemma FinishedPhases(config: Config, env: Environment)
    requires Run(config, env).ending == Finished
    ensures Chosen(config, env).Some? && StagedOf(config, env).Ready?
    ensures
      && Sequencer.OfPhase(Run(config, env).trace, 0) == Sequencer.Stops(config.services)
      && Sequencer.OfPhase(Run(config, env).trace, 1) == Sequencer.Copies(StagedOf(config, env).staged)
      && Sequencer.OfPhase(Run(config, env).trace, 2) == Sequencer.Starts(config.services)
      && Sequencer.OfPhase(Run(config, env).trace, 3) == Sequencer.Unlinks(StagedOf(config, env).staged)
      && Sequencer.OfPhase(Run(config, env).trace, 4) == (if |config.services| == 0 then [] else [Sleep(SettleMillis)])
      && Sequencer.OfPhase(Run(config, env).trace, 5) == (if |config.services| == 0 then [] else Sequencer.Statuses(config.services))
  {
    FinishedShape(config, env);
    var id := Chosen(config, env).value.id;
    var staged := StagedOf(config, env).staged;
    var pre := Head(config, env, id) + Extractions(staged);
    var d := Sequencer.DeployTrace(staged, config.services);
    PreparationPhase(config, env, id, staged);
    OfPhaseAfterPreparation(pre, d, 0);
    OfPhaseAfterPreparation(pre, d, 1);
    OfPhaseAfterPreparation(pre, d, 2);
    OfPhaseAfterPreparation(pre, d, 3);
    OfPhaseAfterPreparation(pre, d, 4);
    OfPhaseAfterPreparation(pre, d, 5);
    Sequencer.PhaseContents(staged, config.services);
  }

  /** Preparation first, then the deployment phase in phase order. */
  lemma OrderedConcat(pre: seq<Action>, d: seq<Action>)
    requires forall i :: 0 <= i < |pre| ==> Sequencer.Phase(pre[i]) == 6
    requires forall i :: 0 <= i < |d| ==> Sequencer.Phase(d[i]) < 6
    requires forall i, j :: 0 <= i < j < |d| ==> Sequencer.Phase(d[i]) <= Sequencer.Phase(d[j])
    ensures var t := pre + d;
      && (forall i, j :: 0 <= i < j < |t| && Sequencer.Phase(t[j]) == 6 ==> Sequencer.Phase(t[i]) == 6)
      && (forall i, j :: 0 <= i < j < |t| && Sequencer.Phase(t[i]) < 6 ==> Sequencer.Phase(t[i]) <= Sequencer.Phase(t[j]))
  {
    var t := pre + d;
    assert forall i :: |pre| <= i < |t| ==> t[i] == d[i - |pre|];
  }

  /** In a finished run nothing of the deployment phase happens before the
      last preparatory action (listing, download, extraction), and the
      deployment phase runs its phases in order: stops, copies, starts,
      deletions, settle delay, status report. */
  lemma FinishedPhasesInOrder(config: Config, env: Environment)
    requires Run(config, env).ending == Finished
    ensures var t := Run(config, env).trace;
      && (forall i, j :: 0 <= i < j < |t| && Sequencer.Phase(t[j]) == 6 ==> Sequencer.Phase(t[i]) == 6)
      && (forall i, j :: 0 <= i < j < |t| && Sequencer.Phase(t[i]) < 6 ==> Sequencer.Phase(t[i]) <= Sequencer.Phase(t[j]))
  {
    FinishedShape(config, env);
    var id := Chosen(config, env).value.id;
    var staged := StagedOf(config, env).staged;
    PreparationPhase(config, env, id, staged);
    Sequencer.DeployTraceKinds(staged, config.services);
    Sequencer.PhasesInOrder(staged, config.services);
    OrderedConcat(Head(config, env, id) + Extractions(staged), Sequencer.DeployTrace(staged, config.services));
  }

  /** Some action of `t` writes temporary file `x`. */
  ghost predicate Extracted(t: seq<Action>, x: TempId) {
    exists i :: 0 <= i < |t| && t[i].Extract? && t[i].temp == x
  }

  lemma ExtractedIn(h: seq<Action>, staged: seq<Staged>, d: seq<Action>, x: TempId)
    requires Preparatory(h)
    requires forall i :: 0 <= i < |d| ==> Sequencer.Phase(d[i]) < 6
    ensures Extracted(h + Extractions(staged) + d, x) <==> exists k :: 0 <= k < |staged| && staged[k].temp == x
  {
    var e := Extractions(staged);
    var t := h + e + d;
    if Extracted(t, x) {
      var i :| 0 <= i < |t| && t[i].Extract? && t[i].temp == x;
      if |h| <= i < |h| + |e| {
        assert t[i] == e[i - |h|];
      }
    }
    if exists k :: 0 <= k < |staged| && staged[k].temp == x {
      var k :| 0 <= k < |staged| && staged[k].temp == x;
      assert t[|h| + k] == e[k];
    }
  }

  lemma NoUnlinkBefore(pre: seq<Action>, d: seq<Action>, x: TempId)
    requires forall i :: 0 <= i < |pre| ==> Sequencer.Phase(pre[i]) == 6
    ensures multiset(pre + d)[Unlink(x)] == multiset(d)[Unlink(x)]
  {
    assert Unlink(x) !in pre;
  }

  /** A finished run deletes every temporary file it wrote exactly once, and
      deletes nothing else. */
  lemma FinishedUnlinksOnce(config: Config, env: Environment, x: TempId)
    requires Run(config, env).ending == Finished
    ensures multiset(Run(config, env).trace)[Unlink(x)] == if Extracted(Run(config, env).trace, x) then 1 else 0
  {
    FinishedShape(config, env);
    var id := Chosen(config, env).value.id;
    var staged := StagedOf(config, env).staged;
    var h := Head(config, env, id);
    var d := Sequencer.DeployTrace(staged, config.services);
    HeadIsPreparatory(config, env, id);
    PreparationPhase(config, env, id, staged);
    Sequencer.DeployTraceKinds(staged, config.services);
    ExtractedIn(h, staged, d, x);
    NoUnlinkBefore(h + Extractions(staged), d, x);
    assert Sequencer.DistinctTemps(staged);
    Sequencer.UnlinkedExactlyOnce(staged, config.services, x);
  }

  /** The extraction at `h + e + d` index `i` is the one of staged file
      `i - |h|`. */
  lemma ExtractionAt(h: seq<Action>, staged: seq<Staged>, d: seq<Action>, i: int)
    requires Preparatory(h)
    requires forall j :: 0 <= j < |d| ==> Sequencer.Phase(d[j]) < 6
    requires 0 <= i < |h + Extractions(staged) + d| && (h + Extractions(staged) + d)[i].Extract?
    ensures |h| <= i < |h| + |staged|
    ensures (h + Extractions(staged) + d)[i] == Extract(staged[i - |h|].temp, staged[i - |h|].source)
  {
    var e := Extractions(staged);
    var t := h + e + d;
    if |h| <= i < |h| + |e| {
      assert t[i] == e[i - |h|];
    }
  }

  lemma CopiedThenDeletedAfter(pre: seq<Action>, d: seq<Action>, from: int, temp: TempId, services: seq<string>)
    requires from < |pre| && Sequencer.CopiedThenDeleted(d, -1, temp, services)
    ensures Sequencer.CopiedThenDeleted(pre + d, from, temp, services)
  {
    var j, k :| 0 <= j && -1 < j < k < |d|
      && d[j].Copy? && d[j].temp == temp
      && d[k] == Unlink(temp)
      && forall m :: 0 <= m < |services| ==> StartService(services[m]) in d[j + 1..k];
    var t := pre + d;
    assert t[|pre| + j] == d[j] && t[|pre| + k] == d[k];
    assert t[|pre| + j + 1..|pre| + k] == d[j + 1..k];
  }

  /** After a preparatory head and the extractions, every extracted
      temporary file is copied, then deleted, with the services started in
      between. */
  lemma ExtractedThenCopied(h: seq<Action>, staged: seq<Staged>, services: seq<string>, i: int)
    requires Preparatory(h)
    requires var t := h + Extractions(staged) + Sequencer.DeployTrace(staged, services);
      0 <= i < |t| && t[i].Extract?
    ensures var t := h + Extractions(staged) + Sequencer.DeployTrace(staged, services);
      Sequencer.CopiedThenDeleted(t, i, t[i].temp, services)
  {
    var d := Sequencer.DeployTrace(staged, services);
    Sequencer.DeployTraceKinds(staged, services);
    ExtractionAt(h, staged, d, i);
    var n := i - |h|;
    Sequencer.CopiedAndStartedBeforeUnlink(staged, services, n);
    CopiedThenDeletedAfter(h + Extractions(staged), d, i, staged[n].temp, services);
  }

  /** In a finished run every temporary file, once written, is copied to its
      target and later deleted, and every service is started in between. */
  lemma FinishedCopiesBeforeUnlink(config: Config, env: Environment, i: int)
    requires 0 <= i < |Run(config, env).trace| && Run(config, env).trace[i].Extract?
    requires Run(config, env).ending == Finished
    ensures Sequencer.CopiedThenDeleted(Run(config, env).trace, i, Run(config, env).trace[i].temp, config.services)
  {
    FinishedShape(config, env);
    var id := Chosen(config, env).value.id;
    HeadIsPreparatory(config, env, id);
    ExtractedThenCopied(Head(config, env, id), StagedOf(config, env).staged, config.services, i);
  }

  /** A run finishes exactly when it passes the gates, picks an artifact,
      and the archive of that artifact holds every copy-files member. */
  lemma FinishedIff(config: Config, env: Environment)
    ensures Run(config, env).ending == Finished <==>
      && PassesGates(config, env)
      && Chosen(config, env).Some?
      && forall i :: 0 <= i < |config.copyFiles| ==>
           Staging.InArchive(env.archiveOf(Chosen(config, env).value.id), config.copyFiles[i].archivePath)
  {
    if PassesGates(config, env) && Chosen(config, env).Some? {
      var p := Locator.Paginate(env.listing);
      assert p.Collected?;
      ArchiveSuffix(config, env);
    }
    if Run(config, env).ending == Finished {
      FinishedShape(config, env);
    }
  }
}
