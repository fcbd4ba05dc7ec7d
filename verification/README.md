# github-deploy, modelled in Dafny

`github-deploy.py` fetches the newest CI build artifact of a GitHub
repository and installs its files on the local machine. Its `main` function
works in these steps:

- it checks its command line and refuses to run as root unless the
  configuration allows it;
- it validates `sudo` and pages through the repository's artifact listing;
- it keeps the artifacts with the configured name and branch, sorts them
  newest first by `updated_at`, and downloads the first;
- it extracts the `copy-files` members, then the members matching each
  `copy-patterns` glob, into temporary files;
- it stops the configured systemd services, copies every temporary file to
  its target, and starts the services again;
- it deletes the temporary files and, when there are services, waits 1.5
  seconds and shows their status.

This project models `main` as a pure function, `Deploy.Run`. The function
maps a parsed configuration and an abstract environment to the trace of side
effects the run performs, plus how the run ends. The environment consists of:

- the command line;
- the effective user id;
- the pages the listing API serves;
- the entry list of every artifact's archive;
- the glob matcher.

The run ends in one of three ways: it finishes, it exits early with one of
four failures, or it hangs.

Modules:

- `Records`: configuration, artifact records, archive entries, staged files,
  actions, failures and endings.
- `Timestamps`: Python's string order, which the script sorts `updated_at`
  by. A second, independent characterisation by the first differing
  character is proved equivalent to it.
- `Paths`: `os.path.basename` and two-argument `os.path.join` for POSIX
  paths.
- `Locator`: the pagination loop, the name and branch filter, the stable
  newest-first sort, and the choice of the freshest record. An independent
  scan, `Locator.FreshestIndex`, serves as the reference for the choice.
- `Staging`: the two extraction loops. Every staged file carries its origin,
  meaning the rule and archive entry that produced it, so that order and
  completeness can be stated.
- `Sequencer`: the stop, copy, start, unlink and status phases.
- `Deploy`: the gates, and the composition of the steps into `Run`. It holds
  the whole-run properties.

Two behaviours of the code are modelled as written, because they are what
the script does:

- **A missing archive member leaks files.** When a `copy-files` member is
  missing from the archive, the run stops with an exception. The temporary
  files it already wrote are never deleted. Nothing has been stopped or
  copied at that point.
- **The listing loop can hang.** If the listing never reaches the reported
  `total_count`, the loop keeps requesting pages forever. The model ends such
  a run in `Hangs`.

Two further points about how the code ends a run:

- When no record is wanted, line 83 indexes an empty list and dies with an
  `IndexError`. The model names this ending `NoMatchingArtifact`: exit
  status 1, and no download before it.
- A missing `copy-files` member (line 97) ends the run before the unlink loop
  at lines 151-152, so the temporary files written before it stay behind.

## Model

| member | source | states |
|---|---|---|
| Timestamps.Less | github-deploy.py:80 | Python's `str` order on `updated_at`; no contract of its own, characterised by `Timestamps.LessHasFirstDifference` and `Timestamps.FirstDifferenceIsLess`. |
| Timestamps.LessIrreflexive | github-deploy.py:80 | No `updated_at` string sorts strictly before itself. |
| Timestamps.LessTransitive | github-deploy.py:80 | String order on sort keys is transitive. |
| Timestamps.LessTrichotomy | github-deploy.py:80 | Any two sort keys are ordered one way, the other, or equal. |
| Timestamps.LessAsymmetric | github-deploy.py:80 | A key strictly before another is not also strictly after it. |
| Timestamps.AtMostTotal | github-deploy.py:80 | "Sorts no later than" is total and antisymmetric, so sorting by it is well defined. |
| Timestamps.AtMostTransitive | github-deploy.py:80 | "Sorts no later than" is transitive. |
| Timestamps.LessHasFirstDifference | github-deploy.py:80 | A key strictly before another has a first position where the first key's character is smaller, or is a proper prefix of it. |
| Timestamps.FirstDifferenceIsLess | github-deploy.py:80 | Conversely, such a first difference makes the key strictly smaller. |
| Paths.Basename | github-deploy.py:134 | `os.path.basename`; no contract of its own, characterised by `Paths.BasenameIsLastComponent`. |
| Paths.Join | github-deploy.py:134 | Two-argument `os.path.join`; no contract of its own, characterised by `Paths.JoinPlacesUnderDir` and `Paths.JoinKeepsBasename`. |
| Paths.BasenameIsLastComponent | github-deploy.py:134 | `basename` is the slash-free final component of the path, preceded by `/` unless it is the whole path. |
| Paths.BasenameOfTail | github-deploy.py:134 | A slash-free tail after a `/` (or alone) is its own basename. |
| Paths.BasenameIsRelative | github-deploy.py:134 | A basename never starts with `/`, so `join` never discards the target directory. |
| Paths.JoinPlacesUnderDir | github-deploy.py:134 | Joining a directory and a basename gives the directory, a `/` unless it is empty or ends in one, then the basename. |
| Paths.JoinKeepsBasename | github-deploy.py:134 | The joined target has the same basename as the archive member. |
| Locator.PrefixPastEnd | github-deploy.py:60-66 | Pages requested past the end of the listing add nothing to the collected records. |
| Locator.PrefixPastEndAt | github-deploy.py:60-66 | The same, for one later page count. |
| Locator.FetchFrom | github-deploy.py:60-66 | From page `k` on, the loop stops at the first page count whose collected records reach the total, holding exactly the pages up to it. It loops forever exactly when no page count reaches the total. |
| Locator.Paginate | github-deploy.py:55-66 | The listing loop collects pages 1..n in page order. `n` is the first count at which the records reach `total_count`. The loop never ends exactly when no such `n` exists. |
| Locator.Wanted | github-deploy.py:72-78 | The comprehension's condition: the name matches, and the branch is empty or equals `head_branch`; no contract of its own, used by `Locator.FilterWanted`. |
| Locator.FilterWanted | github-deploy.py:69-79 | The kept records are an order-preserving subsequence of the listing. All of them are wanted, and every wanted record is kept as often as it is listed. |
| Locator.FilterWantedEmptyIff | github-deploy.py:69-79 | The filter yields nothing exactly when no listed record is wanted. |
| Locator.InsertNewestFirst | github-deploy.py:80 | Insertion adds exactly the one record. |
| Locator.SortNewestFirst | github-deploy.py:80 | The sort permutes its input into non-increasing `updated_at` order. |
| Locator.InsertKeepsSorted | github-deploy.py:80 | Inserting a record into a newest-first list keeps it newest first. |
| Locator.FreshestIndexIsFreshestFirst | github-deploy.py:80-83 | The reference scan finds a record no other record is newer than, with every earlier record strictly older. |
| Locator.SortHeadIsFreshestIndex | github-deploy.py:80-83 | Element 0 of the stable descending sort is the record the reference scan picks, so ties go to the earliest listed record. |
| Locator.SelectFreshest | github-deploy.py:80-83 | A record is selected exactly when the list is non-empty. It is then the first of the freshest records. |
| Locator.FreshestWantedIsFreshestListed | github-deploy.py:69-83 | The first freshest wanted record is listed and wanted, and no wanted record in the listing is newer. |
| Locator.Pick | github-deploy.py:69-83 | No artifact is chosen exactly when no listed record is wanted. |
| Staging.StageByPath | github-deploy.py:96-109 | The copy-files loop stages each rule in order, into temp files 0, 1, …, with the member and target the rule names verbatim. It stops at the first member the archive lacks, having staged every earlier one. |
| Staging.StageEntries | github-deploy.py:115-135 | One pattern's inner loop stages as many files as there are matching non-directory entries, into consecutive temp files. |
| Staging.StageEntriesOrigins | github-deploy.py:115-135 | Every file the inner loop stages comes from its own rule and an entry not before its start. |
| Staging.StageEntriesFaithful | github-deploy.py:115-135 | Every file the inner loop stages is a selected (non-directory, matching) entry, sent to `join(target-dir, basename)`. |
| Staging.StageEntriesIncreasing | github-deploy.py:115-135 | The inner loop stages in archive order. |
| Staging.StageEntriesComplete | github-deploy.py:115-135 | The inner loop stages every selected entry from its start on. |
| Staging.StagePatterns | github-deploy.py:112-135 | The pattern loop stages as many files as the matches summed over the rules, into consecutive temp files. |
| Staging.StagePatternsOrigins | github-deploy.py:112-135 | Every file the pattern loop stages comes from a rule at or after its start. |
| Staging.StagePatternsFaithful | github-deploy.py:112-135 | Every file the pattern loop stages is a selected entry of some rule, with that rule's target. |
| Staging.StagePatternsIncreasing | github-deploy.py:112-135 | The pattern loop stages rule by rule, in archive order within a rule. |
| Staging.StagePatternsComplete | github-deploy.py:112-135 | The pattern loop stages every entry any later rule selects. |
| Staging.Stage | github-deploy.py:93-135 | Extraction succeeds exactly when every copy-files member is in the archive. It then stages `|copy-files|` plus the summed match count. Copy-files mappings come first, verbatim and in order, and temp ids are 0, 1, …. On failure it names the first missing member. |
| Staging.StageFaithful | github-deploy.py:93-135 | Every staged file follows its rule: copy-files targets verbatim, pattern targets are the join of the rule's directory and the member's basename, and only selected entries are taken. |
| Staging.StageInRuleOrder | github-deploy.py:93-135 | Staged files appear in the loops' order: copy-files rules, then pattern rules, and archive order within a rule. |
| Staging.StageComplete | github-deploy.py:112-135 | Every non-directory entry that a pattern matches by its full name is staged for that pattern. |
| Staging.PatternMappingsFollowCopyFiles | github-deploy.py:93-135 | After the copy-files mappings come only pattern mappings. |
| Staging.PatternTargetsKeepBasename | github-deploy.py:134-135 | A pattern mapping keeps the member's basename and places it directly under the rule's target directory. |
| Staging.MatchedTwiceStagedTwice | github-deploy.py:112-135 | An entry two patterns select is staged twice, from the same member, into two different temporary files. |
| Sequencer.DeployTrace | github-deploy.py:137-157 | The deployment makes two actions per service and per staged file, plus a sleep and one status per service when there are services. |
| Sequencer.PhasesInOrder | github-deploy.py:137-157 | Phases never interleave: all stops, then all copies, then all starts, then all unlinks, then the sleep, then the statuses. |
| Sequencer.DeployTraceKinds | github-deploy.py:137-157 | The deployment does nothing but stop, copy, start, unlink, sleep and show status. |
| Sequencer.PhaseOfTrace | github-deploy.py:137-157 | Phase `n` of the deployment is exactly its stops, copies, starts, unlinks, sleep or statuses, and nothing for any other `n`. |
| Sequencer.PhaseContents | github-deploy.py:137-157 | Each phase acts once per service or staged file, in configuration or staging order. The sleep and statuses appear only with services. |
| Sequencer.UnlinkCount | github-deploy.py:150-152 | With distinct temp ids, the unlink phase deletes a temp file once if it was staged and never otherwise. |
| Sequencer.UnlinkedExactlyOnce | github-deploy.py:137-157 | In the whole deployment, each staged temporary file is deleted exactly once, and no other file is. |
| Sequencer.CopiedAndStartedBeforeUnlink | github-deploy.py:137-152 | Every staged file is copied, and later deleted, with every service started in between. |
| Sequencer.StatusReportIffServices | github-deploy.py:154-157 | The sleep and the status calls occur exactly when services are configured. Without services the deployment is just the copies and then the unlinks. |
| Deploy.FromArchive | github-deploy.py:93-157 | From extraction on, the run either finishes or stops at a missing member. A stopped run never deploys. Neither lists nor downloads. |
| Deploy.FromSelection | github-deploy.py:69-91 | The run fails for want of a match exactly when no collected record is wanted, with no further action. It never hangs or fails a gate, and lists no page. |
| Deploy.Saving | github-deploy.py:85-88 | The write of the archive to `zip-location` when the key is present; no contract of its own, placed in the trace by `Deploy.FromDownload`. |
| Deploy.FromDownload | github-deploy.py:83-91 | The rest of the run starts with the one download and neither downloads again nor lists a page. |
| Deploy.FromListing | github-deploy.py:55-66 | The run from the listing on starts by requesting page 1, never fails a gate, and hangs exactly when no page count reaches the total. |
| Deploy.Run | github-deploy.py:35-52 | Bad usage exactly when argv does not hold one argument. Root refusal exactly when the usage is fine, `allow_root` is unset and the euid is 0. Either gate exits 1 after at most one message, with no `sudo -v` and no request. Past the gates the run validates `sudo`, says "here we go" and requests page 1. It hangs only past the gates and when no page count reaches the total. |
| Deploy.ListsPagesUntilTotalReached | github-deploy.py:55-66 | A run that passes the gates and does not hang requests pages 1..n in order, where n is the first count reaching the total, and no other page. |
| Deploy.NoMatchingArtifactIff | github-deploy.py:69-83 | The run fails for want of a match exactly when it passes the gates, the listing ends, and no record in the pages collected is wanted. That run exits 1 and downloads nothing. |
| Deploy.DownloadPosition | github-deploy.py:55-83 | A download happens only past the gates and the listing, directly after the last page request, and fetches the artifact the selection picks. |
| Deploy.DownloadsFreshestWanted | github-deploy.py:55-83 | The downloaded artifact is the first of the freshest wanted records in the pages the listing loop collected. |
| Deploy.DownloadsOnce | github-deploy.py:83 | A run downloads at most one archive. |
| Deploy.MissingEntryTouchesNothing | github-deploy.py:96-97 | A run stopped by a missing copy-files member downloaded the chosen artifact, but stopped, copied, started and deleted nothing. |
| Deploy.MissingEntryLeaksTemps | github-deploy.py:96-109 | Such a run names the first missing copy-files member. It leaves behind the temporary files of every earlier copy-files rule. |
| Deploy.FinishedPhases | github-deploy.py:93-157 | In a finished run, each phase of the whole trace is exactly the configured stops, the copies of the staged files, the starts, the unlinks, and the sleep and statuses only with services. |
| Deploy.FinishedPhasesInOrder | github-deploy.py:35-157 | In a finished run all preparation comes before the deployment, and the deployment phases never interleave. |
| Deploy.FinishedUnlinksOnce | github-deploy.py:99-152 | In a finished run every extracted temporary file is deleted exactly once, and nothing else is deleted. |
| Deploy.ExtractedThenCopied | github-deploy.py:99-152 | After the preparation and extractions, every extracted file is later copied and then deleted, with all services started in between. |
| Deploy.FinishedCopiesBeforeUnlink | github-deploy.py:99-152 | The same, for every file a finished run extracts. |
| Deploy.FinishedIff | github-deploy.py:35-135 | A run finishes exactly when it passes the gates, the listing ends, some record is wanted, and the chosen archive holds every copy-files member. |

## Left out

- HTTP transport, the netrc lookup and the Basic authorisation header
  (`request`, lines 20-32). The listing is an abstract sequence of pages. Each
  download is a single action, and its bytes are not modelled.
- `urlquote` (lines 16-17). It is unused, and it is broken, since it calls the
  `urllib.parse` module itself.
- YAML loading (lines 41-42): a missing or unreadable file, malformed YAML, or
  a missing `repo`/`artifact` key. The configuration is an already parsed
  record. Absent optional keys take the defaults the script reads them with.
- Malformed API responses: missing `total_count`, `artifacts` or
  `workflow_run`, a null `head_branch`, HTTP errors. Records carry the fields
  the script reads.
- Archive bytes: decompression, the 4 MiB chunked copy, corrupt archives, and
  the bytes written to `zip-location`. Saving the archive is recorded as one
  action.
- Temporary file names. They are abstract ids in creation order, and the
  fresh names `tempfile` hands out are distinct.
- `fnmatch`. The matcher is an abstract parameter.
- The effects and exit codes of `sudo`, `systemctl`, `cp` and `time.sleep`.
  They are recorded as trace actions only. The script runs them without
  `check`, so their results never change what it does next.
- Errors from `os.unlink` and other operating-system calls. They are not part
  of this model.
- The exact text written to standard error. Messages are named, not spelled
  out, and the traceback of an uncaught exception is not modelled.
- Locator.Paginate: a listing that never reaches its total is modelled as the
  requests for the listed pages, then `Hangs`. The endless tail of requests
  for empty pages is not part of the trace.
- Archive entries: `isDir` is an independent field, while a real zip member is
  a directory exactly when its name ends in `/`. The model admits entries the
  format cannot produce, and every lemma holds for them as well.
- Deploy.Run: when argv is empty, the usage line itself raises while reading
  `argv[0]`. The model then records no message, and the exit status is still
  1.
