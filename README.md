# OpenStack deployment client, modelled in Dafny

The model covers the deployment client of the OpenStack cluster-api provider
(`pkg/cloud/openstack/deployer.go`). The client does two things:

- `GetIP` reads a machine's IP address from its `openstack-ip-address` annotation.
- `GetKubeConfig` fetches the cluster's admin kubeconfig from a master machine. It
  resolves the IP, looks up `HOME`, parses the machine's provider spec, runs one
  `ssh` command, and reduces the command's output to the text that follows the
  `STARTFILE` marker.

Modules:

- `Wrappers`: `Option` and `Result`.
- `GoStrings`: the two functions of Go's `strings` package that the client calls,
  `TrimSpace` (with `unicode.IsSpace`) and `Split`, and their properties. `Count` and
  `Join` are there to state `Split`'s contract: the number of parts, and the
  round trip back to the text.
- `SshCommandLine`: the shape of the `ssh` argument vector, with a parser that reads
  back exactly that layout (it is not `ssh`'s own option parser).
- `Deployer`: the client itself.

The client's collaborators are not modelled. These are the process environment
(`os.LookupEnv`), the provider-spec parser (`MachineSpecFromProviderSpec`) and the
command runner (`util.ExecCommand`). They are the fields of a `Host` value that
`GetKubeConfig` takes as a parameter. The command runner is any function from an
argument vector to output text. `GetKubeConfig` returns an `Outcome`: its result,
plus the calls it made to its host, in order. So it is visible which steps ran
before a failure, and that `ssh` never runs unless every earlier step succeeded.

A Go `(string, error)` pair becomes `Result<string, Error>`. A nil annotation map is
`None`.

Two consequences of the code shape the model:

- `util.ExecCommand` returns only its output text. It is the sole argument of
  `strings.TrimSpace` (line 76). So the fetch has no remote-execution error: whatever
  the command prints is post-processed.
- `strings.Split` (line 83) cuts at every occurrence of `STARTFILE`, not only the
  first. The fetch accepts the output only when that gives exactly two parts, that is,
  exactly one marker. Otherwise it returns the empty string and no error (lines 84-86).

## Model

| member | source | states |
|---|---|---|
| Deployer.GetIP | pkg/cloud/openstack/deployer.go:49-58 | success exactly when the annotation map is non-nil and holds `openstack-ip-address`; the value is that entry, unchanged; every failure is the IP-not-found error |
| Deployer.GetKubeConfig | pkg/cloud/openstack/deployer.go:60-88 | a failed fetch never ran the ssh command; a successful fetch yields text with no white space at either end and no `STARTFILE` in it |
| Deployer.GetKubeConfigNoIP | pkg/cloud/openstack/deployer.go:61-64 | without an IP the fetch returns the IP error and calls nothing on its host |
| Deployer.GetKubeConfigNoHome | pkg/cloud/openstack/deployer.go:66-69 | with an IP but no `HOME`, the fetch fails with the HOME error after only looking `HOME` up |
| Deployer.GetKubeConfigBadSpec | pkg/cloud/openstack/deployer.go:71-74 | a provider spec that does not parse fails the fetch with the parser's own error, after the HOME lookup and the parse and before any ssh run |
| Deployer.GetKubeConfigRunsSsh | pkg/cloud/openstack/deployer.go:76-87 | once IP, HOME and spec are all present, the fetch succeeds: it runs ssh once, with the fixed command line, after the HOME lookup and the parse, and the run's output decides the kubeconfig |
| Deployer.SshArgvReadsBack | pkg/cloud/openstack/deployer.go:76-82 | the ssh command line, read back in the layout the client builds, is identity file `$HOME/.ssh/openstack_tmp`, the three options `StrictHostKeyChecking no`, `UserKnownHostsFile /dev/null`, `BatchMode=yes`, the target `user@ip` and the remote command `echo STARTFILE; sudo cat /etc/kubernetes/admin.conf` |
| SshCommandLine.ArgvRoundTrip | pkg/cloud/openstack/deployer.go:76-82 | reading back an ssh argument vector recovers the identity file, every option in order, the target and the command it was laid out from |
| Deployer.ExtractUnlessOnce | pkg/cloud/openstack/deployer.go:83-86 | output in which the marker does not occur exactly once yields the empty kubeconfig |
| Deployer.ExtractOnce | pkg/cloud/openstack/deployer.go:76-87 | output `before + STARTFILE + after` with a single marker yields `after` with its white space trimmed |
| Deployer.OuterTrimIrrelevant | pkg/cloud/openstack/deployer.go:76-87 | trimming the whole output before splitting never changes the extracted kubeconfig |
| Deployer.ExtractedIsClean | pkg/cloud/openstack/deployer.go:83-87 | whatever the output, the extracted kubeconfig has no white space at either end and does not contain the marker |
| Deployer.PayloadRecovered | pkg/cloud/openstack/deployer.go:76-87 | a banner, the marker and a payload, with no marker in banner or payload, yield exactly the trimmed payload |
| Deployer.MarkerWithoutPayload | pkg/cloud/openstack/deployer.go:76-87 | a banner without the marker, then the marker, then white space only (what a failed `sudo cat` leaves after the `echo`) yields the empty kubeconfig |
| Deployer.FailedReadExample | pkg/cloud/openstack/deployer.go:82-87 | concrete output `STARTFILE\n` holds the marker exactly once and yields the empty kubeconfig |
| Deployer.RepeatedMarkerGivesEmpty | pkg/cloud/openstack/deployer.go:83-86 | when the banner or the payload itself contains the marker, the result is the empty kubeconfig |
| Deployer.AdminConfPayload | pkg/cloud/openstack/deployer.go:87 | the concrete payload `\n  admin-conf-contents  \n` holds no marker and trims to `admin-conf-contents` |
| Deployer.AdminConfExample | pkg/cloud/openstack/deployer.go:76-87 | concrete output `junk\nSTARTFILE\n  admin-conf-contents  \n` yields `admin-conf-contents` |
| Deployer.TwiceMarkerExample | pkg/cloud/openstack/deployer.go:83-86 | concrete output with the marker twice yields the empty kubeconfig |
| GoStrings.TrimLeftSpace | pkg/cloud/openstack/deployer.go:76 | the result is a suffix of the input, everything cut off is white space, and the result does not start with white space |
| GoStrings.TrimRightSpace | pkg/cloud/openstack/deployer.go:76 | the result is a prefix of the input, everything cut off is white space, and the result does not end with white space |
| GoStrings.TrimSpace | pkg/cloud/openstack/deployer.go:76 | the result has no white space at either end and sits inside the input with only white space around it |
| GoStrings.TrimSpaceUnique | pkg/cloud/openstack/deployer.go:87 | any text with no white space at its ends, surrounded in `s` by white space only, is what `s` trims to |
| GoStrings.TrimSpaceIdempotent | pkg/cloud/openstack/deployer.go:76-87 | trimming twice is trimming once |
| GoStrings.TrimSpaceIgnoresTrailingSpace | pkg/cloud/openstack/deployer.go:87 | appended white space does not change what a text trims to |
| GoStrings.Split | pkg/cloud/openstack/deployer.go:83 | there is one part more than there are occurrences of the separator, and joining the parts with the separator gives the text back |
| GoStrings.CountZeroIffAbsent | pkg/cloud/openstack/deployer.go:83-84 | the count is zero exactly when the separator does not occur anywhere in the text |
| GoStrings.CountTwoOccurrences | pkg/cloud/openstack/deployer.go:83-84 | two different occurrences of a separator whose first character is unique are both counted |
| GoStrings.CountTrimSpace | pkg/cloud/openstack/deployer.go:76-84 | trimming never changes the count of a separator without white space |
| GoStrings.SplitTrimmedOnce | pkg/cloud/openstack/deployer.go:76-87 | after trimming a text with one occurrence of such a separator, the split still has two parts, and its second part trims to what followed the separator, trimmed |
| GoStrings.SoleSplitTailAbsent | pkg/cloud/openstack/deployer.go:83-87 | when a separator with a unique first character occurs once, the trimmed second part of the split does not contain it |

## Left out

- Provider registration in `init` (lines 39-41) and the empty client constructor: they only register the client and hold no logic.
- The log line in `GetIP` (line 52): logging has no effect on the results.
- The texts of the error messages. Errors are the `Error` datatype. The HOME error's message formats `err`, which is always nil at that point (line 68); the model does not carry that text.
- The `cluster` parameter of both operations is never read, so it is not a parameter of the model. `OpenstackIdAnnotationKey` is unused by this code and not modelled.
- What `util.ExecCommand` does: it is any function from an argument vector to output text. An ssh connection failure leaves no marker in the output. A failed read leaves the echoed marker with only white space after it, because the remote command joins `echo` and `sudo cat` with `;` (line 82). Both yield the empty kubeconfig (`ExtractUnlessOnce`, `MarkerWithoutPayload`).
- Termination of the ssh run: the source sets no timeout (lines 76-82), so a hung ssh blocks the fetch forever. The model's command runner always returns, so `GetKubeConfigRunsSsh` describes the fetch only when ssh returns.
- The environment lookup and `MachineSpecFromProviderSpec` are inputs to the model. Only the parsed spec's `SshUserName` field is modelled, because it is the only field the client reads.
- `Split` and `Count` with an empty separator: the client always passes `STARTFILE`.
- Strings are sequences of Unicode code points. Invalid UTF-8 bytes, which Go's `TrimSpace` treats as non-space runes, are not modelled.
- A Go failure is `("", err)` and a success is `(value, nil)`. The model keeps only the error of a failure and only the value of a success.
- SshArgvReadsBack: reads the command line back in the layout the client builds, not as `ssh` parses it. The user name comes from the provider spec unchecked (line 81). If it starts with `-`, `ssh` reads the target `user@ip` as an option (for example `-oProxyCommand=…`) and takes the remote command as the host. The model does not capture this, because it does not model `ssh`'s option parsing.
- GetKubeConfig: its contract states that a failure never ran ssh and what a success yields. The exact outcome of each path is stated by the four `GetKubeConfig…` lemmas, not by the function's own `ensures`.
