/** The program's `main`: flag precedence, provider validation, the fetch,
    then the attribute file and then the SSH keys, with its exit codes. */
module App {
  import opened Wrappers
  import opened Cmdline
  import opened Providers
  import opened Attributes
  import opened SshKeys
  import opened Strings

  /** The command-line flags `--cmdline`, `--provider`, `--attributes`,
      `--ssh-keys` and `--version`. */
  datatype Flags = Flags(cmdline: bool, provider: string, attributes: string, sshKeys: string, version: bool)

  /** What the outside world answers: the contents of `/proc/cmdline` (`None`
      when it cannot be read), each provider's fetch, the known users, and
      the failures of the file system and of the key store. */
  datatype Environment = Environment(procCmdline: Option<string>, fetchers: Fetchers,
                                     attrFaults: AttrFaults, users: set<string>, keyFaults: KeyFaults)

  /** The state the program changes: files on disk and key stores. */
  datatype Machine = Machine(files: Files, stores: Stores)

  /** The exit code, the provider a fetch was attempted from (if any), and
      the final state. */
  datatype Outcome = Outcome(exitCode: int, fetched: Option<Provider>, machine: Machine)

  /** The provider name the run goes on with: `--provider`, or the command
      line's when `--cmdline` is set and `--provider` is empty; `None` when
      that command line cannot be read. */
  function ProviderName(flags: Flags, procCmdline: Option<string>): Option<string> {
    if flags.cmdline && flags.provider == "" then
      match procCmdline
      case None => None
      case Some(text) => Some(CmdlineOem(text))
    else Some(flags.provider)
  }

  /** What a run does when the attributes are visited in the order `order`. */
  function Decide(flags: Flags, env: Environment, m: Machine, order: seq<string>): Outcome {
    if flags.version then Outcome(0, None, m)
    else
      match ProviderName(flags, env.procCmdline)
      case None => Outcome(2, None, m)
      case Some(name) => DecideFor(name, flags, env, m, order)
  }

  /** The run once the provider name is known: validate it, then fetch. */
  function DecideFor(name: string, flags: Flags, env: Environment, m: Machine, order: seq<string>): Outcome {
    if !ValidProvider(name) then Outcome(2, None, m)
    else
      var p := ParseProvider(name).value;
      match FetchMetadata(name, env.fetchers)
      case Failure(_) => Outcome(1, Some(p), m)
      case Success(md) => Install(p, md, flags, env, m, order)
  }

  /** The run once the metadata is fetched: the attribute file, then the keys. */
  function Install(p: Provider, md: Metadata, flags: Flags, env: Environment, m: Machine,
                   order: seq<string>): Outcome {
    var (attrStatus, files) := AttrEffect(flags.attributes, md.attributes, order, env.attrFaults, m.files);
    if attrStatus != AttrOk then Outcome(1, Some(p), Machine(files, m.stores))
    else
      var (keyStatus, stores) := WriteMetadataKeys(flags.sshKeys, md, env.users, env.keyFaults, m.stores);
      Outcome(if keyStatus == KeysOk then 0 else 1, Some(p), Machine(files, stores))
  }

  /** `order` is a possible visit of the fetched attributes whenever the run
      gets as far as writing them. */
  predicate IterationOrder(flags: Flags, env: Environment, order: seq<string>) {
    match ProviderName(flags, env.procCmdline)
    case Some(name) =>
      !flags.version && ValidProvider(name) && FetchMetadata(name, env.fetchers).Success?
      && flags.attributes != "" && !env.attrFaults.mkdirFails && !env.attrFaults.createFails
      ==> Enumerates(order, FetchMetadata(name, env.fetchers).value.attributes.Keys)
    case None => true
  }

  /** Two outcomes that differ at most in the contents of the file at `path`. */
  ghost predicate AgreeBesides(o1: Outcome, o2: Outcome, path: string) {
    && o1.exitCode == o2.exitCode && o1.fetched == o2.fetched && o1.machine.stores == o2.machine.stores
    && (forall p :: p in o1.machine.files <==> p in o2.machine.files)
    && (forall p :: p != path && p in o1.machine.files ==> o1.machine.files[p] == o2.machine.files[p])
  }

  /** The order in which the attributes are visited decides only the order of
      the lines of the attribute file: the exit code, the provider, the key
      stores and every other file are the same for every possible order. */
  lemma DecideOrderIndependent(flags: Flags, env: Environment, m: Machine, o1: seq<string>, o2: seq<string>)
    requires IterationOrder(flags, env, o1) && IterationOrder(flags, env, o2)
    ensures AgreeBesides(Decide(flags, env, m, o1), Decide(flags, env, m, o2), flags.attributes)
  {
    if !flags.version {
      match ProviderName(flags, env.procCmdline)
      case None =>
      case Some(name) =>
        if ValidProvider(name) {
          match FetchMetadata(name, env.fetchers)
          case Failure(_) =>
          case Success(md) =>
            AttrEffectStatus(flags.attributes, md.attributes, o1, env.attrFaults, m.files);
            AttrEffectStatus(flags.attributes, md.attributes, o2, env.attrFaults, m.files);
        }
    }
  }

  /** `main`, step by step. Each `os.Exit` of the source settles `outcome`
      and skips the remaining steps. */
  method Run(flags: Flags, env: Environment, m: Machine) returns (outcome: Outcome, ghost order: seq<string>)
    ensures IterationOrder(flags, env, order)
    ensures outcome == Decide(flags, env, m, order)
    ensures forall o :: IterationOrder(flags, env, o) ==> AgreeBesides(outcome, Decide(flags, env, m, o), flags.attributes)
  {
    order := [];
    if flags.version {
      outcome := Outcome(0, None, m);
    } else if flags.cmdline && flags.provider == "" && env.procCmdline.None? {
      outcome := Outcome(2, None, m);
    } else {
      var provider := flags.provider;
      if flags.cmdline && flags.provider == "" {
        provider := ParseCmdline(env.procCmdline.value);
      }
      assert ProviderName(flags, env.procCmdline) == Some(provider);
      if !ValidProvider(provider) {
        outcome := Outcome(2, None, m);
      } else {
        var p := ParseProvider(provider).value;
        var result := FetchMetadata(provider, env.fetchers);
        if result.Failure? {
          outcome := Outcome(1, Some(p), m);
        } else {
          var metadata := result.value;
          var attrStatus, files;
          attrStatus, files, order := WriteMetadataAttributes(flags.attributes, metadata, env.attrFaults, m.files);
          if attrStatus != AttrOk {
            outcome := Outcome(1, Some(p), Machine(files, m.stores));
          } else {
            var (keyStatus, stores) := WriteMetadataKeys(flags.sshKeys, metadata, env.users, env.keyFaults, m.stores);
            outcome := Outcome(if keyStatus == KeysOk then 0 else 1, Some(p), Machine(files, stores));
          }
        }
      }
    }
    OutcomeOrderIndependent(flags, env, m, order);
  }

  /** Every possible order gives an outcome that agrees with that of `order`. */
  lemma OutcomeOrderIndependent(flags: Flags, env: Environment, m: Machine, order: seq<string>)
    requires IterationOrder(flags, env, order)
    ensures forall o :: IterationOrder(flags, env, o)
                        ==> AgreeBesides(Decide(flags, env, m, order), Decide(flags, env, m, o), flags.attributes)
  {
    forall o | IterationOrder(flags, env, o)
      ensures AgreeBesides(Decide(flags, env, m, order), Decide(flags, env, m, o), flags.attributes)
    {
      DecideOrderIndependent(flags, env, m, order, o);
    }
  }

  /** `--version` comes first: exit 0 with no fetch and no change. */
  lemma VersionFirst(flags: Flags, env: Environment, m: Machine, order: seq<string>)
    requires flags.version
    ensures Decide(flags, env, m, order) == Outcome(0, None, m)
  {
  }

  /** `/proc/cmdline` matters only when `--cmdline` is set and `--provider`
      is empty. */
  lemma CmdlineOnlyWithoutProvider(flags: Flags, env: Environment, m: Machine, order: seq<string>,
                                   other: Option<string>)
    requires !flags.cmdline || flags.provider != ""
    ensures Decide(flags, env, m, order) == Decide(flags, env.(procCmdline := other), m, order)
  {
  }

  /** After the fetch the run exits with 0 or 1, having fetched from `p`. */
  lemma InstallExit(p: Provider, md: Metadata, flags: Flags, env: Environment, m: Machine, order: seq<string>)
    ensures var o := Install(p, md, flags, env, m, order);
            (o.exitCode == 0 || o.exitCode == 1) && o.fetched == Some(p)
  {
  }

  /** Once the name is known: exit 2 without a fetch and without a change
      exactly when the name is not a provider's. */
  lemma DecideForExit(name: string, flags: Flags, env: Environment, m: Machine, order: seq<string>)
    ensures var o := DecideFor(name, flags, env, m, order);
            && (o.exitCode == 0 || o.exitCode == 1 || o.exitCode == 2)
            && (o.exitCode == 2 <==> o.fetched.None?)
            && (o.exitCode == 2 ==> o.machine == m)
            && (o.fetched.Some? <==> ValidProvider(name))
            && (o.fetched.Some? ==> Name(o.fetched.value) == name)
  {
    if ValidProvider(name) {
      var p := ParseProvider(name).value;
      assert Name(p) == name;
      match FetchMetadata(name, env.fetchers)
      case Failure(_) =>
      case Success(md) => InstallExit(p, md, flags, env, m, order);
    }
  }

  /** Exit code 2 means exactly that no fetch was made (outside `--version`),
      and then nothing changed; a fetch happens only for a valid name, and
      from the provider it names. */
  lemma ValidationBeforeFetch(flags: Flags, env: Environment, m: Machine, order: seq<string>)
    requires !flags.version
    ensures var o := Decide(flags, env, m, order);
            && (o.exitCode == 2 <==> o.fetched.None?)
            && (o.exitCode == 2 ==> o.machine == m)
            && (o.fetched.Some? <==> ProviderName(flags, env.procCmdline).Some?
                                     && ValidProvider(ProviderName(flags, env.procCmdline).value))
            && (o.fetched.Some? ==> Name(o.fetched.value) == ProviderName(flags, env.procCmdline).value)
  {
    match ProviderName(flags, env.procCmdline)
    case None =>
    case Some(name) => DecideForExit(name, flags, env, m, order);
  }

  /** A run exits with 0, 1 or 2, and outside `--version` with 0 exactly when
      the name is valid and the fetch, the attribute file and the keys have
      all succeeded. */
  lemma ExitCodes(flags: Flags, env: Environment, m: Machine, order: seq<string>)
    ensures var o := Decide(flags, env, m, order);
            && (o.exitCode == 0 || o.exitCode == 1 || o.exitCode == 2)
            && (o.exitCode == 0 && !flags.version ==> o.fetched.Some?)
    ensures var o := Decide(flags, env, m, order);
            var name := ProviderName(flags, env.procCmdline);
            !flags.version
            ==> (o.exitCode == 0
                 <==> (&& name.Some? && ValidProvider(name.value)
                       && FetchMetadata(name.value, env.fetchers).Success?
                       && AttrEffect(flags.attributes, FetchMetadata(name.value, env.fetchers).value.attributes,
                                     order, env.attrFaults, m.files).0 == AttrOk
                       && WriteMetadataKeys(flags.sshKeys, FetchMetadata(name.value, env.fetchers).value,
                                            env.users, env.keyFaults, m.stores).0 == KeysOk))
  {
    if !flags.version {
      match ProviderName(flags, env.procCmdline)
      case None =>
      case Some(name) => DecideForExit(name, flags, env, m, order);
    }
  }

  /** A failed key install, after the attribute file was written, exits with 1. */
  lemma KeyFailureExits(flags: Flags, env: Environment, m: Machine, order: seq<string>, name: string)
    requires !flags.version && ProviderName(flags, env.procCmdline) == Some(name) && ValidProvider(name)
    requires FetchMetadata(name, env.fetchers).Success?
    requires AttrEffect(flags.attributes, FetchMetadata(name, env.fetchers).value.attributes,
                        order, env.attrFaults, m.files).0 == AttrOk
    requires WriteMetadataKeys(flags.sshKeys, FetchMetadata(name, env.fetchers).value,
                               env.users, env.keyFaults, m.stores).0.KeysFailed?
    ensures var o := Decide(flags, env, m, order);
            o.exitCode == 1 && o.fetched == ParseProvider(name)
  {
  }

  /** A failed fetch exits with 1 and changes nothing. */
  lemma FetchFailureChangesNothing(flags: Flags, env: Environment, m: Machine, order: seq<string>, name: string)
    requires !flags.version && ProviderName(flags, env.procCmdline) == Some(name) && ValidProvider(name)
    requires FetchMetadata(name, env.fetchers).Failure?
    ensures Decide(flags, env, m, order) == Outcome(1, ParseProvider(name), m)
  {
  }

  /** The attribute file is written before the keys: when writing it fails,
      no key store is touched. */
  lemma AttributesBeforeKeys(flags: Flags, env: Environment, m: Machine, order: seq<string>, name: string)
    requires !flags.version && ProviderName(flags, env.procCmdline) == Some(name) && ValidProvider(name)
    requires FetchMetadata(name, env.fetchers).Success?
    requires AttrEffect(flags.attributes, FetchMetadata(name, env.fetchers).value.attributes,
                        order, env.attrFaults, m.files).0 != AttrOk
    ensures var o := Decide(flags, env, m, order);
            o.exitCode == 1 && o.machine.stores == m.stores
  {
  }

  /** A command line without the flag selects no valid provider: exit 2. */
  lemma MissingOemRejected(flags: Flags, env: Environment, m: Machine, order: seq<string>, text: string)
    requires !flags.version && flags.cmdline && flags.provider == "" && env.procCmdline == Some(text)
    requires forall k :: 0 <= k < |Split(text, ' ')| ==> TokenValue(Split(text, ' ')[k]).None?
    ensures Decide(flags, env, m, order) == Outcome(2, None, m)
  {
    LastOemNoMatch(Split(text, ' '));
  }

  /** The attribute file of the example below. */
  lemma ExampleRegionFile()
    ensures Concat(Writes(["REGION"], map["REGION" := "us-east-1"])) == "COREOS_REGION=us-east-1\n"
  {
    var attrs := map["REGION" := "us-east-1"];
    assert Writes(["REGION"], attrs) == ["COREOS_REGION=us-east-1\n"] by {
      assert Emitted("REGION", attrs) == ["COREOS_REGION=us-east-1\n"] by {
        assert Lookup(attrs, "REGION") == "us-east-1";
        assert WriteVariable("REGION", "us-east-1") == "COREOS_REGION=us-east-1\n";
      }
      WritesStep([], "REGION", attrs);
      assert [] + ["REGION"] == ["REGION"];
    }
    ConcatStep([], "COREOS_REGION=us-east-1\n");
    assert [] + ["COREOS_REGION=us-east-1\n"] == ["COREOS_REGION=us-east-1\n"];
  }

  /** `--provider=ec2 --attributes=/tmp/out --ssh-keys=core` with a fetch
      giving one attribute and one key: exit 0, the file holds the one line,
      and `core`'s block holds the one key. */
  lemma ExampleEndToEnd(env: Environment, m: Machine, key: string)
    requires env.fetchers.ec2 == Success(Metadata(map["REGION" := "us-east-1"], Some([key])))
    requires env.attrFaults == AttrFaults(false, false, None)
    requires "core" in env.users && env.keyFaults == KeyFaults(false, false, false)
    ensures var o := Decide(Flags(false, "ec2", "/tmp/out", "core", false), env, m, ["REGION"]);
            && o.exitCode == 0 && o.fetched == Some(Ec2)
            && o.machine.files["/tmp/out"] == "COREOS_REGION=us-east-1\n"
            && o.machine.stores["core"][Label] == key
  {
    ExampleRegionFile();
    assert FetchMetadata("ec2", env.fetchers) == env.fetchers.ec2;
  }
}
