/**
 The data the deploy script works on: its configuration, the artifact records
 the CI provider's listing returns, the entries of the downloaded archive, the
 staged files, and the side effects a run performs.
 */
module Records {

  datatype Option<+T> = None | Some(value: T)

  /** One `copy-files` rule: an archive member copied to a fixed path. */
  datatype CopyFile = CopyFile(archivePath: string, targetPath: string)

  /** One `copy-patterns` rule: every matching archive file goes into `targetDir`. */
  datatype CopyPattern = CopyPattern(pattern: string, targetDir: string)

  /** The parsed configuration document. Optional keys carry the defaults the
      script reads them with: `branch` "", `copy-files`, `copy-patterns` and
      `systemd-services` empty, `zip-location` None, `allow_root` false. */
  datatype Config = Config(
    repo: string,
    artifact: string,
    branch: string,
    copyFiles: seq<CopyFile>,
    copyPatterns: seq<CopyPattern>,
    zipLocation: Option<string>,
    services: seq<string>,
    allowRoot: bool)

  /** The fields of an artifact record the script reads; `headBranch` is the
      `workflow_run.head_branch` of the record. */
  datatype Artifact = Artifact(id: int, name: string, updatedAt: string, headBranch: string)

  /** An archive member as listed by the archive's `infolist`; its bytes are
      not modelled. A zip member is a directory exactly when its name ends in
      `/`; `isDir` is kept as a separate field, so the model also admits
      entries the archive format cannot produce, and its lemmas cover them too. */
  datatype Entry = Entry(filename: string, isDir: bool)

  /** Temporary files are named by the order in which the run creates them;
      fresh names are pairwise distinct. */
  type TempId = nat

  /** Which rule produced a staged file: the `rule`-th `copy-files` entry, or
      the `rule`-th `copy-patterns` entry matching the `entry`-th archive member. */
  datatype Origin = ByPath(rule: nat) | ByPattern(rule: nat, entry: nat)

  /** An archive member extracted into temporary file `temp`, to be copied to `target`. */
  datatype Staged = Staged(temp: TempId, source: string, target: string, origin: Origin)

  /** The lines the script writes to standard error. */
  datatype Message = UsageHelp | RootWarning | HereWeGo

  /** Settle delay before the status report, in milliseconds (`time.sleep(1.5)`). */
  const SettleMillis: nat := 1500

  /** The externally visible effects of a run, in the order they happen. */
  datatype Action =
    | Say(message: Message)
    | SudoValidate
    | ListArtifacts(page: nat)
    | DownloadArchive(artifactId: int)
    | SaveArchive(path: string)
    | Extract(temp: TempId, source: string)
    | StopService(service: string)
    | Copy(temp: TempId, target: string)
    | StartService(service: string)
    | Unlink(temp: TempId)
    | Sleep(millis: nat)
    | ServiceStatus(service: string)

  /** Why a run stops early with exit status 1. */
  datatype Failure =
    | BadUsage
    | RootRefused
    | NoMatchingArtifact
    | MissingArchiveEntry(path: string)

  /** How a run ends: normally, by an early exit, or never (the listing loop
      keeps asking for empty pages). */
  datatype Ending = Finished | Aborted(failure: Failure) | Hangs

  /** The process exit status of an ending; a run that hangs has none. */
  function ExitStatus(e: Ending): Option<int> {
    match e
    case Finished => Some(0)
    case Aborted(_) => Some(1)
    case Hangs => None
  }
}
