/**
 The OpenStack deployment client's two operations: resolving a machine's IP address
 from its annotations, and fetching the cluster's admin kubeconfig from a master machine
 over ssh. The process environment, the provider-spec parser and the command runner are
 the `Host` the fetch runs against; the fetch reports which of them it called, in order.
 */
module Deployer {
  import opened Wrappers
  import opened GoStrings
  import opened SshCommandLine

  /** The annotation that carries a machine's IP address. */
  const IPAnnotationKey := "openstack-ip-address"
  /** The environment variable that locates the ssh key. */
  const HomeVariable := "HOME"
  const IdentitySubpath := "/.ssh/openstack_tmp"
  /** Printed by the remote command just before the kubeconfig. */
  const Marker := "STARTFILE"
  const RemoteCommand := "echo STARTFILE; sudo cat /etc/kubernetes/admin.conf"
  const SshOptions := ["StrictHostKeyChecking no", "UserKnownHostsFile /dev/null", "BatchMode=yes"]

  /** The raw provider configuration of a machine; only the provider-spec parser looks inside it. */
  datatype ProviderSpec = ProviderSpec(value: string)

  /** The parts of a machine the client reads; `None` annotations is Go's nil map. */
  datatype Machine = Machine(annotations: Option<map<string, string>>, providerSpec: ProviderSpec)

  /** The one field of the parsed OpenStack machine spec that the client uses. */
  datatype MachineSpec = MachineSpec(sshUserName: string)

  datatype Error =
    | IPNotFound                       // the IP annotation is missing
    | HomeNotSet                       // HOME is not in the environment
    | ProviderSpecInvalid(cause: string)  // the parser's own error, passed on as it is

  /** What the fetch calls out to: the environment, the provider-spec parser, and the command runner (which yields the command's output). */
  datatype Host = Host(
    lookupEnv: string -> Option<string>,
    parseProviderSpec: ProviderSpec -> Result<MachineSpec, string>,
    execCommand: seq<string> -> string)

  datatype Call = LookupEnv(name: string) | ParseProviderSpec(spec: ProviderSpec) | ExecCommand(argv: seq<string>)

  /** The result of a fetch together with the calls it made to its host, in the order made. */
  datatype Outcome = Outcome(result: Result<string, Error>, calls: seq<Call>)

  /** The IP of a machine is the value of its IP annotation, taken as it is; a nil map or a missing key is an error. */
  function GetIP(machine: Machine): (r: Result<string, Error>)
    ensures r.Success? <==> machine.annotations.Some? && IPAnnotationKey in machine.annotations.value
    ensures r.Success? ==> r.value == machine.annotations.value[IPAnnotationKey]
    ensures r.Failure? ==> r.error == IPNotFound
  {
    match machine.annotations
    case Some(annotations) =>
      if IPAnnotationKey in annotations then Success(annotations[IPAnnotationKey]) else Failure(IPNotFound)
    case None => Failure(IPNotFound)
  }

  /** The ssh command line, argument by argument, that reads the admin kubeconfig off the machine at `ip`. */
  function SshArgv(home: string, user: string, ip: string): seq<string>
  {
    ["ssh", "-i", home + IdentitySubpath,
     "-o", "StrictHostKeyChecking no",
     "-o", "UserKnownHostsFile /dev/null",
     "-o", "BatchMode=yes",
     user + "@" + ip,
     RemoteCommand]
  }

  /** The ssh command line is the fixed key, the three non-interactive options, the login `user@ip` and the fixed remote command. */
  lemma SshArgvReadsBack(home: string, user: string, ip: string)
    ensures ParseArgv(SshArgv(home, user, ip))
         == Some(Invocation(home + "/.ssh/openstack_tmp", SshOptions, user + "@" + ip,
                            "echo STARTFILE; sudo cat /etc/kubernetes/admin.conf"))
  {
    var inv := Invocation(home + IdentitySubpath, SshOptions, user + "@" + ip, RemoteCommand);
    assert OptionArgs(SshOptions[2..]) == ["-o", "BatchMode=yes"];
    assert OptionArgs(SshOptions[1..]) == ["-o", "UserKnownHostsFile /dev/null", "-o", "BatchMode=yes"];
    assert SshArgv(home, user, ip) == Argv(inv);
    ArgvRoundTrip(inv);
  }

  /** The text after the marker, trimmed, provided the output splits into exactly two parts at the marker; otherwise empty. */
  function AfterMarker(result: string): string
  {
    var parts := Split(result, Marker);
    if |parts| != 2 then "" else TrimSpace(parts[1])
  }

  /** What the fetch makes of the ssh command's output: trim it, then take what follows the marker. */
  function ExtractKubeConfig(output: string): string
  {
    AfterMarker(TrimSpace(output))
  }

  lemma MarkerFacts()
    ensures |Marker| == 9 && FirstCharUnique(Marker) && NoSpace(Marker)
  {
  }

  /** Output in which the marker does not occur exactly once yields the empty kubeconfig, and no error. */
  lemma ExtractUnlessOnce(output: string)
    requires Count(output, Marker) != 1
    ensures ExtractKubeConfig(output) == ""
  {
    MarkerFacts();
    CountTrimSpace(output, Marker);
  }

  /** Output with a single marker yields what follows the marker, white space trimmed. */
  lemma ExtractOnce(output: string, before: string, after: string)
    requires output == before + Marker + after && Count(output, Marker) == 1
    ensures ExtractKubeConfig(output) == TrimSpace(after)
  {
    MarkerFacts();
    SplitTrimmedOnce(output, Marker, before, after);
  }

  /** Trimming the whole output first never changes the kubeconfig that is extracted. */
  lemma OuterTrimIrrelevant(output: string)
    ensures ExtractKubeConfig(output) == AfterMarker(output)
  {
    MarkerFacts();
    CountTrimSpace(output, Marker);
    if Count(output, Marker) == 1 {
      SplitOnce(output, Marker);
      var parts := Split(output, Marker);
      ExtractOnce(output, parts[0], parts[1]);
    }
  }

  /** An extracted kubeconfig never begins or ends with white space and never contains the marker. */
  lemma ExtractedIsClean(output: string)
    ensures NoEdgeSpace(ExtractKubeConfig(output))
    ensures !Contains(ExtractKubeConfig(output), Marker)
  {
    MarkerFacts();
    OuterTrimIrrelevant(output);
    if Count(output, Marker) == 1 {
      SoleSplitTailAbsent(output, Marker);
    }
  }

  /** Command output made of a banner, the marker and a payload, neither of which contains the marker, yields the trimmed payload. */
  lemma PayloadRecovered(banner: string, payload: string)
    requires !Contains(banner, Marker) && !Contains(payload, Marker)
    ensures ExtractKubeConfig(banner + Marker + payload) == TrimSpace(payload)
  {
    MarkerFacts();
    var s := banner + Marker + payload;
    assert s[|banner|] == Marker[0];
    forall i | 0 <= i < |banner| ensures !OccursAt(s, Marker, i) {
      if i + |Marker| <= |banner| {
        assert s[i..i + |Marker|] == banner[i..i + |Marker|];
        assert !OccursAt(banner, Marker, i);
      } else if i + |Marker| <= |s| {
        assert s[i..i + |Marker|][|banner| - i] == s[|banner|];
      }
    }
    CountSkip(s, Marker, |banner|);
    var rest := s[|banner|..];
    assert rest == Marker + payload;
    assert rest[..|Marker|] == Marker && rest[|Marker|..] == payload;
    CountZeroIffAbsent(payload, Marker);
    ExtractOnce(s, banner, payload);
  }

  /**
   Output in which the marker is followed by white space only, as when the remote read
   fails after the marker was echoed, yields the empty kubeconfig.
   */
  lemma MarkerWithoutPayload(banner: string, w: string)
    requires !Contains(banner, Marker) && AllSpace(w)
    ensures ExtractKubeConfig(banner + Marker + w) == ""
  {
    MarkerFacts();
    assert Marker[0] !in w by {
      forall j | 0 <= j < |w| ensures w[j] != Marker[0] {
        assert IsSpace(w[j]);
      }
    }
    AbsentFirstChar(w, Marker);
    PayloadRecovered(banner, w);
    assert w[..0] == [] && w[0..0] == [] && w[0..] == w;
    TrimSpaceUnique(w, 0, "");
  }

  /** `sudo cat` failing still leaves the echoed marker, once, and the kubeconfig is empty. */
  lemma FailedReadExample(output: string)
    requires output == "STARTFILE\n"
    ensures Count(output, Marker) == 1 && ExtractKubeConfig(output) == ""
  {
    assert output == "" + Marker + "\n";
    assert output[..|Marker|] == Marker && output[|Marker|..] == "\n";
    assert AllSpace("\n");
    MarkerWithoutPayload("", "\n");
  }

  /** When the banner or the payload itself holds the marker, the output is ambiguous and yields the empty kubeconfig. */
  lemma RepeatedMarkerGivesEmpty(banner: string, payload: string)
    requires Contains(banner, Marker) || Contains(payload, Marker)
    ensures ExtractKubeConfig(banner + Marker + payload) == ""
  {
    MarkerFacts();
    var s := banner + Marker + payload;
    assert s[|banner|..|banner| + |Marker|] == Marker;
    assert OccursAt(s, Marker, |banner|);
    if Contains(banner, Marker) {
      var i :| 0 <= i <= |banner| - |Marker| && OccursAt(banner, Marker, i);
      assert s[i..i + |Marker|] == banner[i..i + |Marker|];
      CountTwoOccurrences(s, Marker, i, |banner|);
    } else {
      var i :| 0 <= i <= |payload| - |Marker| && OccursAt(payload, Marker, i);
      var j := |banner| + |Marker| + i;
      assert s[j..j + |Marker|] == payload[i..i + |Marker|];
      CountTwoOccurrences(s, Marker, |banner|, j);
    }
    ExtractUnlessOnce(s);
  }

  lemma AdminConfPayload(payload: string)
    requires payload == "\n  admin-conf-contents  \n"
    ensures !Contains(payload, Marker) && TrimSpace(payload) == "admin-conf-contents"
  {
    var conf := "admin-conf-contents";
    assert payload == "\n  " + conf + "  \n";
    assert 'S' !in payload;
    AbsentFirstChar(payload, Marker);
    assert AllSpace("\n  ") && AllSpace("  \n") && NoEdgeSpace(conf);
    SurroundsConcat("\n  ", conf, "  \n");
    TrimSpaceUnique(payload, 3, conf);
  }

  /** Noise before the marker and white space around the kubeconfig are dropped. */
  lemma AdminConfExample(output: string)
    requires output == "junk\nSTARTFILE\n  admin-conf-contents  \n"
    ensures ExtractKubeConfig(output) == "admin-conf-contents"
  {
    var banner, payload := "junk\n", "\n  admin-conf-contents  \n";
    assert output == banner + Marker + payload;
    AdminConfPayload(payload);
    PayloadRecovered(banner, payload);
  }

  /** Output with the marker twice is ambiguous: the empty kubeconfig, and no error. */
  lemma TwiceMarkerExample(output: string)
    requires output == "STARTFILE twice STARTFILE payload"
    ensures ExtractKubeConfig(output) == ""
  {
    MarkerFacts();
    assert output == Marker + " twice " + Marker + " payload";
    assert OccursAt(output, Marker, 0) && OccursAt(output, Marker, 16);
    CountTwoOccurrences(output, Marker, 0, 16);
    ExtractUnlessOnce(output);
  }

  /**
   Fetches the admin kubeconfig of `master`: its IP, then HOME, then its parsed
   provider spec, each failure returned at once; then one ssh run whose output is
   reduced to the kubeconfig. An ssh run never leads to an error, and what it yields
   never has white space at either end nor the marker in it.
   */
  function GetKubeConfig(master: Machine, host: Host): (out: Outcome)
    ensures out.result.Failure? ==> forall i :: 0 <= i < |out.calls| ==> !out.calls[i].ExecCommand?
    ensures out.result.Success? ==> NoEdgeSpace(out.result.value) && !Contains(out.result.value, Marker)
  {
    match GetIP(master)
    case Failure(e) => Outcome(Failure(e), [])
    case Success(ip) =>
      match host.lookupEnv(HomeVariable)
      case None => Outcome(Failure(HomeNotSet), [LookupEnv(HomeVariable)])
      case Some(home) =>
        match host.parseProviderSpec(master.providerSpec)
        case Failure(cause) =>
          Outcome(Failure(ProviderSpecInvalid(cause)), [LookupEnv(HomeVariable), ParseProviderSpec(master.providerSpec)])
        case Success(spec) =>
          var argv := SshArgv(home, spec.sshUserName, ip);
          var output := host.execCommand(argv);
          ExtractedIsClean(output);
          Outcome(Success(ExtractKubeConfig(output)),
                  [LookupEnv(HomeVariable), ParseProviderSpec(master.providerSpec), ExecCommand(argv)])
  }

  /** Without an IP the fetch fails with the IP error and calls nothing on its host. */
  lemma GetKubeConfigNoIP(master: Machine, host: Host)
    requires GetIP(master).Failure?
    ensures GetKubeConfig(master, host) == Outcome(Failure(GetIP(master).error), [])
  {
  }

  /** With an IP but no HOME, the fetch fails having only looked HOME up. */
  lemma GetKubeConfigNoHome(master: Machine, host: Host)
    requires GetIP(master).Success? && host.lookupEnv("HOME").None?
    ensures GetKubeConfig(master, host) == Outcome(Failure(HomeNotSet), [LookupEnv("HOME")])
  {
  }

  /** A provider spec that does not parse fails the fetch with the parser's error, before any ssh run. */
  lemma GetKubeConfigBadSpec(master: Machine, host: Host)
    requires GetIP(master).Success? && host.lookupEnv("HOME").Some?
    requires host.parseProviderSpec(master.providerSpec).Failure?
    ensures GetKubeConfig(master, host)
         == Outcome(Failure(ProviderSpecInvalid(host.parseProviderSpec(master.providerSpec).error)),
                    [LookupEnv("HOME"), ParseProviderSpec(master.providerSpec)])
  {
  }

  /** Once IP, HOME and spec are all there, ssh runs exactly once, with the fixed command line, and its output decides the result. */
  lemma GetKubeConfigRunsSsh(master: Machine, host: Host)
    requires GetIP(master).Success? && host.lookupEnv("HOME").Some?
    requires host.parseProviderSpec(master.providerSpec).Success?
    ensures
      var argv := SshArgv(host.lookupEnv("HOME").value,
                          host.parseProviderSpec(master.providerSpec).value.sshUserName,
                          GetIP(master).value);
      GetKubeConfig(master, host)
        == Outcome(Success(ExtractKubeConfig(host.execCommand(argv))),
                   [LookupEnv("HOME"), ParseProviderSpec(master.providerSpec), ExecCommand(argv)])
  {
  }
}
