/** The script that starts Ray on a worker. */
module BringUp {

  import opened Results
  import opened Text
  import opened ScopedStop
  import CommandLines
  import Tailnet
  import Tunnels

  const ADDRESS_FLAG := "--address="
  const PLACEHOLDER := "--address=$RAY_HEAD_IP:6379"
  const RELAY_IP := "127.200.0.1"

  datatype Config = Config(headIp: string, headGcsPort: nat, tailnet: Option<Tailnet.TailnetConfig>,
                           tailnetIps: set<string>, startCommands: seq<seq<string>>)
  {
    function HeadRayAddress(): string {
      headIp + ":" + Decimal(headGcsPort)
    }
  }

  /** A line of the script: an environment variable or a command's words. */
  datatype Line = Export(name: string, value: string) | Command(words: seq<string>)

  predicate HasPair(words: seq<string>, a: string, b: string) {
    exists i | 0 <= i < |words| - 1 :: words[i] == a && words[i + 1] == b
  }

  predicate MentionsAddress(words: seq<string>) {
    exists i | 0 <= i < |words| :: Contains(words[i], "--address")
  }

  predicate StartsRay(words: seq<string>) {
    HasPair(words, "ray", "start") && MentionsAddress(words)
  }

  // ---------------------------------------------------------------- what a finished script says

  /** The last word that gives the option gives it this value. */
  ghost predicate LastOption(words: seq<string>, name: string, v: string) {
    exists i: nat :: i < |words| && words[i] == "--" + name + "=" + v
                     && forall j: nat, u | i < j < |words| :: words[j] != "--" + name + "=" + u
  }

  /** The last line that sets the variable gives it this value. */
  ghost predicate Variable(script: seq<Line>, name: string, v: string) {
    exists i: nat :: i < |script| && script[i] == Export(name, v)
                     && forall j | i < j < |script| :: script[j].Export? ==> script[j].name != name
  }

  ghost predicate SetsOnly(lines: seq<Line>, names: set<string>) {
    forall i | 0 <= i < |lines| :: lines[i].Export? ==> lines[i].name in names
  }

  /** The variables after the script; its first n lines come before. */
  ghost predicate VariablesSet(script: seq<Line>, n: nat, config: Config, onHead: bool,
                               tunnel: Option<Tunnels.TunnelConfig>, relayHead: Option<string>,
                               alloc: Option<Tailnet.Alloc>)
    requires alloc.Some? ==> config.tailnet.Some?
    requires n <= |script|
  {
    if alloc.Some? then
      var tn, a := config.tailnet.value, alloc.value;
      && Variable(script, "RAY_HEAD_IP", tn.headAdvertiseIp)
      && Variable(script, "CHIA_TOOL_BASE_PORT", IntText(a.toolMin))
      && Variable(script, "CHIA_TOOL_MAX_PORT", IntText(a.toolMax))
      && Variable(script, "CHIA_TOOL_ADVERTISE_HOST", a.advertiseIp)
      && Variable(script, "RAY_grpc_enable_http_proxy", "1")
      && Variable(script, "grpc_proxy", "http://127.0.0.1:" + IntText(tn.connectProxyPort))
      && (onHead ==>
            Variable(script, "no_grpc_proxy", a.advertiseIp + "," + tn.headAdvertiseIp + ",127.0.0.1,localhost"))
      && (!onHead ==> Variable(script, "no_grpc_proxy", a.advertiseIp + ",127.0.0.1,localhost"))
      && SetsOnly(script[n..], {"RAY_HEAD_IP", "CHIA_TOOL_BASE_PORT", "CHIA_TOOL_MAX_PORT", "CHIA_TOOL_ADVERTISE_HOST",
                                "RAY_grpc_enable_http_proxy", "grpc_proxy", "no_grpc_proxy"})
    else if tunnel.Some? then
      && Variable(script, "RAY_HEAD_IP", tunnel.value.tunnelIp)
      && Variable(script, "CHIA_TOOL_BASE_PORT", IntText(tunnel.value.toolMin))
      && Variable(script, "CHIA_TOOL_MAX_PORT", IntText(tunnel.value.toolMax))
      && if relayHead == None || relayHead == Some("") then
           SetsOnly(script[n..], {"RAY_HEAD_IP", "CHIA_TOOL_BASE_PORT", "CHIA_TOOL_MAX_PORT"})
         else
           && Variable(script, "CHIA_TOOL_ADVERTISE_HOST", relayHead.value)
           && Variable(script, "CHIA_TOOL_RELAY_HOST", "127.200.0.1")
           && SetsOnly(script[n..], {"RAY_HEAD_IP", "CHIA_TOOL_BASE_PORT", "CHIA_TOOL_MAX_PORT",
                                     "CHIA_TOOL_ADVERTISE_HOST", "CHIA_TOOL_RELAY_HOST"})
    else Variable(script, "RAY_HEAD_IP", config.headIp) && SetsOnly(script[n..], {"RAY_HEAD_IP"})
  }

  ghost predicate Ascending(ks: seq<nat>) {
    forall p, q | 0 <= p < q < |ks| :: ks[p] < ks[q]
  }

  /** Which commands stay: all but `ray stop`, where that is left out. */
  ghost predicate Stays(words: seq<string>, noStop: bool) {
    noStop ==> forall i | 0 <= i < |words| - 1 :: !(words[i] == "ray" && words[i + 1] == "stop")
  }

  /** After the variables come the commands that stay, in their order, the start commands finished. */
  ghost predicate CommandsKept(script: seq<Line>, n: nat, config: Config, resources: string, noStop: bool,
                               tunnel: Option<Tunnels.TunnelConfig>, alloc: Option<Tailnet.Alloc>)
    requires alloc.Some? ==> config.tailnet.Some?
  {
    exists ks: seq<nat>, e: nat ::
      && n <= e && |script| == e + |ks| && (forall i | n <= i < e :: script[i].Export?)
      && Chosen(script[e..], config.startCommands, ks, config, resources, noStop, tunnel, alloc)
  }

  /** The lines are the commands at ks, which are those that stay, in their order and finished. */
  ghost predicate Chosen(lines: seq<Line>, commands: seq<seq<string>>, ks: seq<nat>, config: Config, resources: string,
                         noStop: bool, tunnel: Option<Tunnels.TunnelConfig>, alloc: Option<Tailnet.Alloc>)
    requires alloc.Some? ==> config.tailnet.Some?
  {
    && Ascending(ks) && |ks| == |lines|
    && (forall k: nat :: k in ks <==> k < |commands| && Stays(commands[k], noStop))
    && forall q | 0 <= q < |ks| ::
         && ks[q] < |commands| && lines[q].Command?
         && Done(lines[q].words, commands[ks[q]], config, resources, tunnel, alloc)
  }

  /** A command in the script: as configured, but a start command has its resources and, over the tailnet or behind a
      tunnel, the address and the pinned ports. */
  ghost predicate Done(cmd: seq<string>, words: seq<string>, config: Config, resources: string,
                       tunnel: Option<Tunnels.TunnelConfig>, alloc: Option<Tailnet.Alloc>)
    requires alloc.Some? ==> config.tailnet.Some?
  {
    if !((exists i | 0 <= i < |words| - 1 :: words[i] == "ray" && words[i + 1] == "start")
         && CommandLines.Mentioned(words, "--address")) then cmd == words
    else if alloc.Some? then
      var tn, a := config.tailnet.value, alloc.value;
      && WordsKept(cmd, words + ["--resources='" + resources + "'"],
                   "--address=" + (tn.headAdvertiseIp + ":" + IntText(tn.gcsPort)))
      && LastOption(cmd, "node-ip-address", a.advertiseIp)
      && LastOption(cmd, "node-manager-port", IntText(a.nodeManagerPort))
      && LastOption(cmd, "object-manager-port", IntText(a.objectManagerPort))
      && LastOption(cmd, "min-worker-port", IntText(a.workerMin))
      && LastOption(cmd, "max-worker-port", IntText(a.workerMax))
    else if tunnel.Some? then
      var t := tunnel.value;
      && WordsKept(cmd, words + ["--resources='" + resources + "'"],
                   "--address=" + (t.tunnelIp + ":" + Decimal(t.gcsPort)))
      && LastOption(cmd, "node-ip-address", t.tunnelIp)
      && LastOption(cmd, "node-manager-port", IntText(t.nodeManagerPort))
      && LastOption(cmd, "object-manager-port", IntText(t.objectManagerPort))
      && LastOption(cmd, "min-worker-port", IntText(t.workerMin))
      && LastOption(cmd, "max-worker-port", IntText(t.workerMax))
    else cmd == words + ["--resources='" + resources + "'"]
  }

  /** Words stay where they are, with the placeholder replaced; five options follow. */
  ghost predicate WordsKept(cmd: seq<string>, words: seq<string>, address: string) {
    && |cmd| == |words| + 5
    && forall i | 0 <= i < |words| :: WordKept(cmd[i], words[i], address)
  }

  ghost predicate WordKept(now: string, word: string, address: string) {
    && (!CommandLines.OccursIn(word, "--address=$RAY_HEAD_IP:6379") ==> now == word)
    && forall a, b | word == a + "--address=$RAY_HEAD_IP:6379" + b && HasNo(a, '$') && HasNo(b, '$') ::
         now == a + address + b
  }

  // ---------------------------------------------------------------- the script bring-up writes

  /** str.replace of the placeholder within one word; it holds no blank, so no match spans two words. */
  function ReplaceAll(s: string, new_: string): string
    decreases |s|
  {
    if StartsWith(s, PLACEHOLDER) then new_ + ReplaceAll(s[|PLACEHOLDER|..], new_)
    else if s == "" then ""
    else [s[0]] + ReplaceAll(s[1..], new_)
  }

  function ReplaceWords(words: seq<string>, new_: string): (r: seq<string>)
    ensures |r| == |words| && forall i | 0 <= i < |words| :: r[i] == ReplaceAll(words[i], new_)
  {
    seq(|words|, i requires 0 <= i < |words| => ReplaceAll(words[i], new_))
  }

  function PortFlags(nodeIp: string, manager: int, objects: int, lo: int, hi: int): seq<string> {
    ["--node-ip-address=" + nodeIp, "--node-manager-port=" + IntText(manager),
      "--object-manager-port=" + IntText(objects),
     "--min-worker-port=" + IntText(lo), "--max-worker-port=" + IntText(hi)]
  }

  /** How a worker reaches the head: over the tailnet, through a tunnel, or directly. */
  datatype Access = Relayed(tn: Tailnet.TailnetConfig, alloc: Tailnet.Alloc) | Tunneled(tunnel: Tunnels.TunnelConfig)
      | Direct

  function AccessOf(config: Config, tunnel: Option<Tunnels.TunnelConfig>, alloc: Option<Tailnet.Alloc>): Access
    requires alloc.Some? ==> config.tailnet.Some?
  {
    if alloc.Some? then Relayed(config.tailnet.value, alloc.value)
    else if tunnel.Some? then Tunneled(tunnel.value)
    else Direct
  }

  function Exports(config: Config, access: Access, isHead: bool, relayHead: Option<string>): seq<Line> {
    match access
    case Relayed(tn, a) =>
      [Export("RAY_HEAD_IP", tn.headAdvertiseIp),
       Export("CHIA_TOOL_BASE_PORT", IntText(a.toolMin)), Export("CHIA_TOOL_MAX_PORT", IntText(a.toolMax)),
       Export("CHIA_TOOL_ADVERTISE_HOST", a.advertiseIp), Export("RAY_grpc_enable_http_proxy", "1"),
       Export("grpc_proxy", "http://127.0.0.1:" + IntText(tn.connectProxyPort)),
       Export("no_grpc_proxy",
         (if isHead then a.advertiseIp + "," + tn.headAdvertiseIp else a.advertiseIp) + ",127.0.0.1,localhost")]
    case Tunneled(t) =>
      [Export("RAY_HEAD_IP", t.tunnelIp), Export("CHIA_TOOL_BASE_PORT", IntText(t.toolMin)),
        Export("CHIA_TOOL_MAX_PORT", IntText(t.toolMax))]
      + (if relayHead.Some? && relayHead.value != "" then
           [Export("CHIA_TOOL_ADVERTISE_HOST", relayHead.value), Export("CHIA_TOOL_RELAY_HOST", RELAY_IP)]
         else [])
    case Direct => [Export("RAY_HEAD_IP", config.headIp)]
  }

  /** A start command with its resources, the head's address and the pinned ports filled in. */
  function StartWords(words: seq<string>, access: Access, resources: string): seq<string> {
    var w := words + ["--resources='" + resources + "'"];
    match access
    case Relayed(tn, a) =>
      ReplaceWords(w, ADDRESS_FLAG + (tn.headAdvertiseIp + ":" + IntText(tn.gcsPort)))
      + PortFlags(a.advertiseIp, a.nodeManagerPort, a.objectManagerPort, a.workerMin, a.workerMax)
    case Tunneled(t) =>
      ReplaceWords(w, ADDRESS_FLAG + (t.tunnelIp + ":" + Decimal(t.gcsPort)))
      + PortFlags(t.tunnelIp, t.nodeManagerPort, t.objectManagerPort, t.workerMin, t.workerMax)
    case Direct => w
  }

  /** `ray stop` is left out on the head machine and where asked. */
  predicate Skipped(words: seq<string>, noStop: bool) {
    HasPair(words, "ray", "stop") && noStop
  }

  function StartLines(commands: seq<seq<string>>, access: Access, resources: string, noStop: bool): seq<Line> {
    if commands == [] then []
    else
      var n := |commands| - 1;
      var w := commands[n];
      StartLines(commands[..n], access, resources, noStop)
      + (if Skipped(w, noStop) then [] else [Command(if StartsRay(w) then StartWords(w, access, resources) else w)])
  }

  method BuildWorkerScript(config: Config, ip: string, resources: string, preamble: seq<Line>,
                           tunnel: Option<Tunnels.TunnelConfig>,
                           skipRayStop: bool, relayHead: Option<string>, alloc: Option<Tailnet.Alloc>)
    returns (script: seq<Line>)
    requires alloc.Some? ==> config.tailnet.Some?
    ensures var access := AccessOf(config, tunnel, alloc);
            script == preamble + Exports(config, access, ip == config.headIp, relayHead)
                      + StartLines(config.startCommands, access, resources, ip == config.headIp || skipRayStop)
    ensures preamble <= script
    ensures VariablesSet(script, |preamble|, config, ip == config.headIp, tunnel, relayHead, alloc)
    ensures CommandsKept(script, |preamble|, config, resources, ip == config.headIp || skipRayStop, tunnel, alloc)
  {
    hide *;
    var isHead := ip == config.headIp;
    script := WriteExports(config, isHead, preamble, tunnel, relayHead, alloc);
    ghost var access, before := AccessOf(config, tunnel, alloc), script;
    NoLines(script, config.startCommands[..0], access, resources, isHead || skipRayStop);
    for i := 0 to |config.startCommands|
      invariant script == before + StartLines(config.startCommands[..i], access, resources, isHead || skipRayStop)
    {
      LinesSnoc(config.startCommands[..i + 1], access, resources, isHead || skipRayStop);
      assert config.startCommands[..i + 1][..i] == config.startCommands[..i];
      var cmd := config.startCommands[i];
      if Skipped(cmd, isHead || skipRayStop) { continue; }
      if StartsRay(cmd) { cmd := AddressCommand(config, cmd, resources, tunnel, alloc); }
      script := script + [Command(cmd)];
    }
    assert config.startCommands[..|config.startCommands|] == config.startCommands;
    ghost var lines := StartLines(config.startCommands, access, resources, isHead || skipRayStop);
    assert before == preamble + Exports(config, access, isHead, relayHead);
    ScriptSets(preamble, lines, config, isHead, tunnel, relayHead, alloc, resources, isHead || skipRayStop);
    ScriptKeeps(preamble, config, isHead, tunnel, relayHead, alloc, resources, isHead || skipRayStop);
  }

  lemma NoLines(script: seq<Line>, commands: seq<seq<string>>, access: Access, resources: string, noStop: bool)
    requires commands == []
    ensures StartLines(commands, access, resources, noStop) == []
    ensures script + StartLines(commands, access, resources, noStop) == script
  {
  }

  lemma LinesSnoc(commands: seq<seq<string>>, access: Access, resources: string, noStop: bool)
    requires commands != []
    ensures var n := |commands| - 1; var w := commands[n];
            StartLines(commands, access, resources, noStop)
            == StartLines(commands[..n], access, resources, noStop)
               + (if Skipped(w, noStop) then []
                  else [Command(if StartsRay(w) then StartWords(w, access, resources) else w)])
  {
    hide Skipped; hide StartsRay; hide StartWords;
  }

  method WriteExports(config: Config, isHead: bool, preamble: seq<Line>, tunnel: Option<Tunnels.TunnelConfig>,
                      relayHead: Option<string>, alloc: Option<Tailnet.Alloc>) returns (script: seq<Line>)
    requires alloc.Some? ==> config.tailnet.Some?
    ensures script == preamble + Exports(config, AccessOf(config, tunnel, alloc), isHead, relayHead)
  {
    hide IntText;
    script := preamble;
    if alloc.Some? {
      var tn, a := config.tailnet.value, alloc.value;
      script := script + [Export("RAY_HEAD_IP", tn.headAdvertiseIp)];
      script := script + [Export("CHIA_TOOL_BASE_PORT", IntText(a.toolMin))];
      script := script + [Export("CHIA_TOOL_MAX_PORT", IntText(a.toolMax))];
      script := script + [Export("CHIA_TOOL_ADVERTISE_HOST", a.advertiseIp)];
      var noProxy := if isHead then a.advertiseIp + "," + tn.headAdvertiseIp else a.advertiseIp;
      script := script + [Export("RAY_grpc_enable_http_proxy", "1"),
                          Export("grpc_proxy", "http://127.0.0.1:" + IntText(tn.connectProxyPort)),
                          Export("no_grpc_proxy", noProxy + ",127.0.0.1,localhost")];
    } else if tunnel.Some? {
      var t := tunnel.value;
      script := script + [Export("RAY_HEAD_IP", t.tunnelIp)];
      script := script + [Export("CHIA_TOOL_BASE_PORT", IntText(t.toolMin))];
      script := script + [Export("CHIA_TOOL_MAX_PORT", IntText(t.toolMax))];
      if relayHead.Some? && relayHead.value != "" {
        script := script + [Export("CHIA_TOOL_ADVERTISE_HOST", relayHead.value)];
        script := script + [Export("CHIA_TOOL_RELAY_HOST", RELAY_IP)];
      }
    } else {
      script := script + [Export("RAY_HEAD_IP", config.headIp)];
    }
  }

  method AddressCommand(config: Config, words: seq<string>, resources: string, tunnel: Option<Tunnels.TunnelConfig>,
                        alloc: Option<Tailnet.Alloc>)
    returns (cmd: seq<string>)
    requires alloc.Some? ==> config.tailnet.Some?
    ensures cmd == StartWords(words, AccessOf(config, tunnel, alloc), resources)
  {
    cmd := words + ["--resources='" + resources + "'"];
    if alloc.Some? {
      var tn, a := config.tailnet.value, alloc.value;
      cmd := ReplaceWords(cmd, ADDRESS_FLAG + (tn.headAdvertiseIp + ":" + IntText(tn.gcsPort)));
      cmd := cmd + PortFlags(a.advertiseIp, a.nodeManagerPort, a.objectManagerPort, a.workerMin, a.workerMax);
    } else if tunnel.Some? {
      var t := tunnel.value;
      cmd := ReplaceWords(cmd, ADDRESS_FLAG + (t.tunnelIp + ":" + Decimal(t.gcsPort)));
      cmd := cmd + PortFlags(t.tunnelIp, t.nodeManagerPort, t.objectManagerPort, t.workerMin, t.workerMax);
    }
  }


  // ---------------------------------------------------------------- the variables are set

  /** Exports of pairwise different names, told apart by length. */
  ghost predicate Apart(ex: seq<Line>) {
    && (forall i | 0 <= i < |ex| :: ex[i].Export?)
    && forall i, j | 0 <= i < j < |ex| :: |ex[i].name| != |ex[j].name|
  }

  lemma EachSet(preamble: seq<Line>, ex: seq<Line>, lines: seq<Line>, k: nat)
    requires Apart(ex) && k < |ex| && forall j | 0 <= j < |lines| :: lines[j].Command?
    ensures Variable(preamble + ex + lines, ex[k].name, ex[k].value)
  {
    var script, i := preamble + ex + lines, |preamble| + k;
    assert script[i] == ex[k];
    assert forall j | |preamble| + |ex| <= j < |script| :: script[j] == lines[j - |preamble| - |ex|];
    assert forall j | i < j < |preamble| + |ex| :: script[j] == ex[j - |preamble|];
  }

  lemma OnlyThose(preamble: seq<Line>, ex: seq<Line>, lines: seq<Line>, names: set<string>)
    requires forall i | 0 <= i < |ex| :: ex[i].Export? && ex[i].name in names
    requires forall j | 0 <= j < |lines| :: lines[j].Command?
    ensures SetsOnly((preamble + ex + lines)[|preamble|..], names)
  {
    assert (preamble + ex + lines)[|preamble|..] == ex + lines;
  }

  /** The names have pairwise different lengths. */
  lemma NameLengths()
    ensures |"RAY_HEAD_IP"| == 11 && |"CHIA_TOOL_BASE_PORT"| == 19 && |"CHIA_TOOL_MAX_PORT"| == 18
    ensures |"CHIA_TOOL_ADVERTISE_HOST"| == 24 && |"CHIA_TOOL_RELAY_HOST"| == 20 && |"RAY_grpc_enable_http_proxy"| == 26
    ensures |"grpc_proxy"| == 10 && |"no_grpc_proxy"| == 13
  {
  }

  lemma {:induction false} LinesCommand(commands: seq<seq<string>>, access: Access, resources: string, noStop: bool)
    ensures forall j | 0 <= j < |StartLines(commands, access, resources, noStop)| ::
              StartLines(commands, access, resources, noStop)[j].Command?
  {
    hide *;
    if commands == [] {
      NoLines([], commands, access, resources, noStop);
    } else {
      LinesCommand(commands[..|commands| - 1], access, resources, noStop);
      LinesSnoc(commands, access, resources, noStop);
    }
  }

  lemma ScriptSets(preamble: seq<Line>, lines: seq<Line>, config: Config, isHead: bool,
                   tunnel: Option<Tunnels.TunnelConfig>, relayHead: Option<string>, alloc: Option<Tailnet.Alloc>,
                   resources: string, noStop: bool)
    requires alloc.Some? ==> config.tailnet.Some?
    requires lines == StartLines(config.startCommands, AccessOf(config, tunnel, alloc), resources, noStop)
    ensures var script := preamble + Exports(config, AccessOf(config, tunnel, alloc), isHead, relayHead) + lines;
            VariablesSet(script, |preamble|, config, isHead, tunnel, relayHead, alloc)
  {
    hide *;
    LinesCommand(config.startCommands, AccessOf(config, tunnel, alloc), resources, noStop);
    if alloc.Some? {
      RelayedSets(preamble, lines, config, isHead, tunnel, relayHead, alloc);
    } else if tunnel.Some? {
      TunneledSets(preamble, lines, config, isHead, tunnel, relayHead, alloc);
    } else {
      DirectSets(preamble, lines, config, isHead, tunnel, relayHead, alloc);
    }
  }

  lemma RelayedSets(preamble: seq<Line>, lines: seq<Line>, config: Config, isHead: bool,
                    tunnel: Option<Tunnels.TunnelConfig>, relayHead: Option<string>, alloc: Option<Tailnet.Alloc>)
    requires alloc.Some? && config.tailnet.Some? && forall j | 0 <= j < |lines| :: lines[j].Command?
    ensures var script := preamble + Exports(config, AccessOf(config, tunnel, alloc), isHead, relayHead) + lines;
            VariablesSet(script, |preamble|, config, isHead, tunnel, relayHead, alloc)
  {
    var ex := Exports(config, AccessOf(config, tunnel, alloc), isHead, relayHead);
    var script, names := preamble + ex + lines, RelayedNames();
    RelayedExports(config, isHead, tunnel, relayHead, alloc);
    forall k: nat | k < 7 { EachSet(preamble, ex, lines, k); }
    OnlyThose(preamble, ex, lines, names);
    hide *;
    forall k: nat | k < 7 ensures Variable(script, ex[k].name, ex[k].value) {}
    RelayedAre(script, |preamble|, ex, config, isHead, tunnel, relayHead, alloc);
  }

  ghost function RelayedNames(): set<string> {
    {"RAY_HEAD_IP", "CHIA_TOOL_BASE_PORT", "CHIA_TOOL_MAX_PORT", "CHIA_TOOL_ADVERTISE_HOST",
     "RAY_grpc_enable_http_proxy", "grpc_proxy", "no_grpc_proxy"}
  }

  lemma RelayedExports(config: Config, isHead: bool, tunnel: Option<Tunnels.TunnelConfig>, relayHead: Option<string>,
                       alloc: Option<Tailnet.Alloc>)
    requires alloc.Some? && config.tailnet.Some?
    ensures var ex := Exports(config, AccessOf(config, tunnel, alloc), isHead, relayHead);
            |ex| == 7 && Apart(ex) && forall i | 0 <= i < |ex| :: ex[i].Export? && ex[i].name in RelayedNames()
  {
    hide IntText;
    NameLengths();
  }

  lemma RelayedAre(script: seq<Line>, n: nat, ex: seq<Line>, config: Config, isHead: bool,
                   tunnel: Option<Tunnels.TunnelConfig>, relayHead: Option<string>, alloc: Option<Tailnet.Alloc>)
    requires alloc.Some? && config.tailnet.Some? && n <= |script|
    requires ex == Exports(config, AccessOf(config, tunnel, alloc), isHead, relayHead) && |ex| == 7
    requires forall k: nat | k < 7 :: ex[k].Export? && Variable(script, ex[k].name, ex[k].value)
    requires SetsOnly(script[n..], RelayedNames())
    ensures VariablesSet(script, n, config, isHead, tunnel, relayHead, alloc)
  {
    hide IntText; hide Variable; hide SetsOnly;
    assert forall k: nat | k < 7 :: Variable(script, ex[k].name, ex[k].value);
    var tn, a := config.tailnet.value, alloc.value;
    assert ex[0] == Export("RAY_HEAD_IP", tn.headAdvertiseIp);
    assert ex[1] == Export("CHIA_TOOL_BASE_PORT", IntText(a.toolMin));
    assert ex[2] == Export("CHIA_TOOL_MAX_PORT", IntText(a.toolMax));
    assert ex[3] == Export("CHIA_TOOL_ADVERTISE_HOST", a.advertiseIp);
    assert ex[4] == Export("RAY_grpc_enable_http_proxy", "1");
    assert ex[5].name == "grpc_proxy" && ex[6].name == "no_grpc_proxy";
  }

  lemma TunneledSets(preamble: seq<Line>, lines: seq<Line>, config: Config, isHead: bool,
                     tunnel: Option<Tunnels.TunnelConfig>, relayHead: Option<string>, alloc: Option<Tailnet.Alloc>)
    requires alloc.None? && tunnel.Some? && forall j | 0 <= j < |lines| :: lines[j].Command?
    ensures var script := preamble + Exports(config, AccessOf(config, tunnel, alloc), isHead, relayHead) + lines;
            VariablesSet(script, |preamble|, config, isHead, tunnel, relayHead, alloc)
  {
    var ex := Exports(config, AccessOf(config, tunnel, alloc), isHead, relayHead);
    var script, names := preamble + ex + lines, TunneledNames(relayHead);
    TunneledExports(config, isHead, tunnel, relayHead, alloc);
    forall k: nat | k < |ex| { EachSet(preamble, ex, lines, k); }
    OnlyThose(preamble, ex, lines, names);
    hide *;
    forall k: nat | k < |ex| ensures Variable(script, ex[k].name, ex[k].value) {}
    TunneledAre(script, |preamble|, ex, config, isHead, tunnel, relayHead, alloc);
  }

  ghost function TunneledNames(relayHead: Option<string>): set<string> {
    if relayHead == None || relayHead == Some("") then {"RAY_HEAD_IP", "CHIA_TOOL_BASE_PORT", "CHIA_TOOL_MAX_PORT"}
    else
      {"RAY_HEAD_IP", "CHIA_TOOL_BASE_PORT", "CHIA_TOOL_MAX_PORT", "CHIA_TOOL_ADVERTISE_HOST", "CHIA_TOOL_RELAY_HOST"}
  }

  lemma TunneledExports(config: Config, isHead: bool, tunnel: Option<Tunnels.TunnelConfig>, relayHead: Option<string>,
                        alloc: Option<Tailnet.Alloc>)
    requires alloc.None? && tunnel.Some?
    ensures var ex := Exports(config, AccessOf(config, tunnel, alloc), isHead, relayHead);
            Apart(ex) && forall i | 0 <= i < |ex| :: ex[i].Export? && ex[i].name in TunneledNames(relayHead)
  {
    hide IntText;
    NameLengths();
  }

  lemma TunneledAre(script: seq<Line>, n: nat, ex: seq<Line>, config: Config, isHead: bool,
                    tunnel: Option<Tunnels.TunnelConfig>, relayHead: Option<string>, alloc: Option<Tailnet.Alloc>)
    requires alloc.None? && tunnel.Some? && n <= |script|
    requires ex == Exports(config, AccessOf(config, tunnel, alloc), isHead, relayHead)
    requires forall k: nat | k < |ex| :: ex[k].Export? && Variable(script, ex[k].name, ex[k].value)
    requires SetsOnly(script[n..], TunneledNames(relayHead))
    ensures VariablesSet(script, n, config, isHead, tunnel, relayHead, alloc)
  {
    hide IntText; hide Variable; hide SetsOnly;
    assert forall k: nat | k < |ex| :: Variable(script, ex[k].name, ex[k].value);
    var t := tunnel.value;
    assert ex[0] == Export("RAY_HEAD_IP", t.tunnelIp);
    assert ex[1] == Export("CHIA_TOOL_BASE_PORT", IntText(t.toolMin));
    assert ex[2] == Export("CHIA_TOOL_MAX_PORT", IntText(t.toolMax));
    if !(relayHead == None || relayHead == Some("")) {
      assert ex[3] == Export("CHIA_TOOL_ADVERTISE_HOST", relayHead.value);
      assert ex[4] == Export("CHIA_TOOL_RELAY_HOST", "127.200.0.1");
    }
  }

  lemma DirectSets(preamble: seq<Line>, lines: seq<Line>, config: Config, isHead: bool,
                   tunnel: Option<Tunnels.TunnelConfig>, relayHead: Option<string>, alloc: Option<Tailnet.Alloc>)
    requires alloc.None? && tunnel.None? && forall j | 0 <= j < |lines| :: lines[j].Command?
    ensures var script := preamble + Exports(config, AccessOf(config, tunnel, alloc), isHead, relayHead) + lines;
            VariablesSet(script, |preamble|, config, isHead, tunnel, relayHead, alloc)
  {
    var ex := Exports(config, AccessOf(config, tunnel, alloc), isHead, relayHead);
    hide Variable; hide SetsOnly;
    assert Apart(ex);
    EachSet(preamble, ex, lines, 0);
    OnlyThose(preamble, ex, lines, {"RAY_HEAD_IP"});
  }

  // ---------------------------------------------------------------- the commands are kept

  /** No value makes the word an option of that name. */
  ghost predicate NotOf(word: string, name: string) {
    forall u :: word != "--" + name + "=" + u
  }

  function Flag(name: string, v: string): string {
    "--" + name + "=" + v
  }

  lemma OtherName(other: string, v: string, name: string, k: nat)
    requires k < |name| && k < |other| && other[k] != name[k]
    ensures NotOf(Flag(other, v), name)
  {
    assert Flag(other, v)[k + 2] == other[k];
    forall u ensures Flag(other, v) != "--" + name + "=" + u { assert ("--" + name + "=" + u)[k + 2] == name[k]; }
  }

  lemma LastFlag(words: seq<string>, i: nat, name: string, v: string)
    requires i < |words| && words[i] == Flag(name, v)
    requires forall j | i < j < |words| :: NotOf(words[j], name)
    ensures LastOption(words, name, v)
  {
  }

  lemma FlagsLast(words: seq<string>, nodeIp: string, manager: int, objects: int, lo: int, hi: int)
    ensures var cmd := words + PortFlags(nodeIp, manager, objects, lo, hi);
            && LastOption(cmd, "node-ip-address", nodeIp) && LastOption(cmd, "node-manager-port", IntText(manager))
            && LastOption(cmd, "object-manager-port", IntText(objects))
            && LastOption(cmd, "min-worker-port", IntText(lo)) && LastOption(cmd, "max-worker-port", IntText(hi))
  {
    hide *;
    var flags, n := PortFlags(nodeIp, manager, objects, lo, hi), |words|;
    var cmd := words + flags;
    FlagWords(nodeIp, manager, objects, lo, hi);
    FlagNames(IntText(manager), IntText(objects), IntText(lo), IntText(hi));
    After(words, flags);
    LastFlag(cmd, n, "node-ip-address", nodeIp);
    LastFlag(cmd, n + 1, "node-manager-port", IntText(manager));
    LastFlag(cmd, n + 2, "object-manager-port", IntText(objects));
    LastFlag(cmd, n + 3, "min-worker-port", IntText(lo));
    LastFlag(cmd, n + 4, "max-worker-port", IntText(hi));
  }

  lemma After(words: seq<string>, flags: seq<string>)
    ensures |words + flags| == |words| + |flags|
    ensures forall i | |words| <= i < |words| + |flags| :: (words + flags)[i] == flags[i - |words|]
  {
  }

  lemma FlagWords(nodeIp: string, manager: int, objects: int, lo: int, hi: int)
    ensures PortFlags(nodeIp, manager, objects, lo, hi)
            == [Flag("node-ip-address", nodeIp), Flag("node-manager-port", IntText(manager)),
                Flag("object-manager-port", IntText(objects)), Flag("min-worker-port", IntText(lo)),
                Flag("max-worker-port", IntText(hi))]
  {
    hide IntText;
    NodeTexts();
    ObjectText();
    WorkerTexts();
  }

  lemma NodeTexts()
    ensures "--node-ip-address=" == "--" + "node-ip-address" + "="
    ensures "--node-manager-port=" == "--" + "node-manager-port" + "="
  {
  }

  lemma ObjectText()
    ensures "--object-manager-port=" == "--" + "object-manager-port" + "="
  {
  }

  lemma WorkerTexts()
    ensures "--min-worker-port=" == "--" + "min-worker-port" + "="
    ensures "--max-worker-port=" == "--" + "max-worker-port" + "="
  {
  }

  /** Where the five names differ. */
  lemma FlagLetters()
    ensures "node-ip-address"[5] == 'i' && "node-manager-port"[5] == 'm'
    ensures "node-ip-address"[0] == 'n' && "node-manager-port"[0] == 'n' && "object-manager-port"[0] == 'o'
    ensures "min-worker-port"[0] == 'm' && "max-worker-port"[0] == 'm'
    ensures "min-worker-port"[1] == 'i' && "max-worker-port"[1] == 'a'
  {
  }

  lemma FlagNames(manager: string, objects: string, lo: string, hi: string)
    ensures var f1, f2 := Flag("node-manager-port", manager), Flag("object-manager-port", objects);
            var f3, f4 := Flag("min-worker-port", lo), Flag("max-worker-port", hi);
            && NotOf(f1, "node-ip-address") && NotOf(f2, "node-ip-address") && NotOf(f3, "node-ip-address")
            && NotOf(f4, "node-ip-address") && NotOf(f2, "node-manager-port") && NotOf(f3, "node-manager-port")
            && NotOf(f4, "node-manager-port") && NotOf(f3, "object-manager-port")
            && NotOf(f4, "object-manager-port") && NotOf(f4, "min-worker-port")
  {
    hide *;
    FlagLetters();
    OtherName("node-manager-port", manager, "node-ip-address", 5);
    OtherName("object-manager-port", objects, "node-ip-address", 0);
    OtherName("min-worker-port", lo, "node-ip-address", 0);
    OtherName("max-worker-port", hi, "node-ip-address", 0);
    OtherName("object-manager-port", objects, "node-manager-port", 0);
    OtherName("min-worker-port", lo, "node-manager-port", 0);
    OtherName("max-worker-port", hi, "node-manager-port", 0);
    OtherName("min-worker-port", lo, "object-manager-port", 0);
    OtherName("max-worker-port", hi, "object-manager-port", 0);
    OtherName("max-worker-port", hi, "min-worker-port", 1);
  }

  lemma {:induction false} NothingReplaced(s: string, new_: string)
    requires !Contains(s, PLACEHOLDER)
    ensures ReplaceAll(s, new_) == s
  {
    if s != "" { NothingReplaced(s[1..], new_); }
  }

  lemma PlaceholderDollar()
    ensures |PLACEHOLDER| == 27 && PLACEHOLDER[10] == '$' && forall i | 0 <= i < 27 && i != 10 :: PLACEHOLDER[i] != '$'
  {
  }

  /** Nothing is replaced in a text without the variable. */
  lemma {:induction false} NoVariable(s: string, new_: string)
    requires HasNo(s, '$')
    ensures ReplaceAll(s, new_) == s
  {
    PlaceholderDollar();
    StartsAt(s, PLACEHOLDER, 10);
    if s != "" {
      assert HasNo(s[1..], '$');
      NoVariable(s[1..], new_);
    }
  }

  lemma {:induction false} OneReplaced(a: string, b: string, new_: string)
    requires HasNo(a, '$') && HasNo(b, '$')
    ensures ReplaceAll(a + PLACEHOLDER + b, new_) == a + new_ + b
  {
    var s := a + PLACEHOLDER + b;
    hide ReplaceAll;
    PlaceholderDollar();
    if a == "" {
      NoVariable(b, new_);
      assert s == PLACEHOLDER + b;
      ReplaceHead(b, new_);
    } else {
      assert s[1..] == a[1..] + PLACEHOLDER + b && s[0] == a[0] && HasNo(a[1..], '$');
      OneReplaced(a[1..], b, new_);
      StartsAt(s, PLACEHOLDER, 10);
      assert s[10] != '$';
      ReplaceTail(s, new_);
      assert [s[0]] + (a[1..] + new_ + b) == a + new_ + b;
    }
  }

  lemma ReplaceHead(b: string, new_: string)
    ensures ReplaceAll(PLACEHOLDER + b, new_) == new_ + ReplaceAll(b, new_)
  {
    assert (PLACEHOLDER + b)[|PLACEHOLDER|..] == b;
  }

  lemma ReplaceTail(s: string, new_: string)
    requires s != "" && !StartsWith(s, PLACEHOLDER)
    ensures ReplaceAll(s, new_) == [s[0]] + ReplaceAll(s[1..], new_)
  {
  }

  lemma Replaced(word: string, address: string)
    ensures WordKept(ReplaceAll(word, address), word, address)
  {
    CommandLines.ContainsIff(word, PLACEHOLDER);
    hide Contains; hide CommandLines.OccursIn; hide ReplaceAll; hide HasNo;
    if !Contains(word, PLACEHOLDER) { NothingReplaced(word, address); }
    forall a, b | word == a + PLACEHOLDER + b && HasNo(a, '$') && HasNo(b, '$')
      ensures ReplaceAll(word, address) == a + address + b
    {
      OneReplaced(a, b, address);
    }
  }

  lemma AllKept(words: seq<string>, address: string, more: seq<string>)
    requires |more| == 5
    ensures WordsKept(ReplaceWords(words, address) + more, words, address)
  {
    forall i | 0 <= i < |words| { Replaced(words[i], address); }
    hide WordKept; hide ReplaceAll;
  }

  lemma StartsIff(words: seq<string>)
    ensures StartsRay(words)
            <==> (exists i | 0 <= i < |words| - 1 :: words[i] == "ray" && words[i + 1] == "start")
                 && CommandLines.Mentioned(words, "--address")
  {
    forall i | 0 <= i < |words| { CommandLines.ContainsIff(words[i], "--address"); }
    hide Contains; hide CommandLines.OccursIn;
    if CommandLines.Mentioned(words, "--address") {
      var i: nat :| i < |words| && CommandLines.OccursIn(words[i], "--address");
      assert Contains(words[i], "--address");
    }
  }

  lemma CommandDone(words: seq<string>, config: Config, resources: string, tunnel: Option<Tunnels.TunnelConfig>,
                    alloc: Option<Tailnet.Alloc>)
    requires alloc.Some? ==> config.tailnet.Some?
    ensures var access := AccessOf(config, tunnel, alloc);
            Done(if StartsRay(words) then StartWords(words, access, resources) else words, words, config, resources,
                 tunnel, alloc)
  {
    StartsIff(words);
    var w := words + ["--resources='" + resources + "'"];
    hide StartsRay; hide CommandLines.Mentioned; hide IntText; hide Decimal; hide LastOption; hide WordsKept;
    hide ReplaceWords;
    if alloc.Some? {
      var tn, a := config.tailnet.value, alloc.value;
      var address := ADDRESS_FLAG + (tn.headAdvertiseIp + ":" + IntText(tn.gcsPort));
      var flags := PortFlags(a.advertiseIp, a.nodeManagerPort, a.objectManagerPort, a.workerMin, a.workerMax);
      AllKept(w, address, flags);
      FlagsLast(ReplaceWords(w, address), a.advertiseIp, a.nodeManagerPort, a.objectManagerPort, a.workerMin,
        a.workerMax);
    } else if tunnel.Some? {
      var t := tunnel.value;
      var address := ADDRESS_FLAG + (t.tunnelIp + ":" + Decimal(t.gcsPort));
      var flags := PortFlags(t.tunnelIp, t.nodeManagerPort, t.objectManagerPort, t.workerMin, t.workerMax);
      AllKept(w, address, flags);
      FlagsLast(ReplaceWords(w, address), t.tunnelIp, t.nodeManagerPort, t.objectManagerPort, t.workerMin, t.workerMax);
    }
  }

  lemma SkippedIff(words: seq<string>, noStop: bool)
    ensures Skipped(words, noStop) <==> !Stays(words, noStop)
  {
  }

  lemma {:induction false} LinesChosen(commands: seq<seq<string>>, config: Config, resources: string, noStop: bool,
                                       tunnel: Option<Tunnels.TunnelConfig>, alloc: Option<Tailnet.Alloc>)
    returns (ks: seq<nat>)
    requires alloc.Some? ==> config.tailnet.Some?
    ensures Chosen(StartLines(commands, AccessOf(config, tunnel, alloc), resources, noStop), commands, ks, config,
                   resources, noStop, tunnel, alloc)
  {
    hide *;
    var access := AccessOf(config, tunnel, alloc);
    if commands == [] {
      NoLines([], commands, access, resources, noStop);
      ks := [];
      NoneChosen(config, resources, noStop, tunnel, alloc);
    } else {
      var n := |commands| - 1;
      var w := commands[n];
      ks := LinesChosen(commands[..n], config, resources, noStop, tunnel, alloc);
      LinesSnoc(commands, access, resources, noStop);
      SkippedIff(w, noStop);
      CommandDone(w, config, resources, tunnel, alloc);
      var lines := StartLines(commands[..n], access, resources, noStop);
      assert commands == commands[..n] + [w];
      if Skipped(w, noStop) {
        ChosenSkip(lines, commands[..n], w, ks, config, resources, noStop, tunnel, alloc);
        assert lines + [] == lines;
      } else {
        ChosenSnoc(lines, commands[..n], w, if StartsRay(w) then StartWords(w, access, resources) else w, ks, config,
                   resources, noStop, tunnel, alloc);
        ks := ks + [n];
      }
    }
  }

  lemma NoneChosen(config: Config, resources: string, noStop: bool, tunnel: Option<Tunnels.TunnelConfig>,
                   alloc: Option<Tailnet.Alloc>)
    requires alloc.Some? ==> config.tailnet.Some?
    ensures Chosen([], [], [], config, resources, noStop, tunnel, alloc)
  {
  }

  lemma ChosenSkip(lines: seq<Line>, commands: seq<seq<string>>, w: seq<string>, ks: seq<nat>, config: Config,
                   resources: string, noStop: bool, tunnel: Option<Tunnels.TunnelConfig>, alloc: Option<Tailnet.Alloc>)
    requires alloc.Some? ==> config.tailnet.Some?
    requires Chosen(lines, commands, ks, config, resources, noStop, tunnel, alloc) && !Stays(w, noStop)
    ensures Chosen(lines, commands + [w], ks, config, resources, noStop, tunnel, alloc)
  {
    hide Ascending; hide Stays; hide Done;
  }

  lemma ChosenSnoc(lines: seq<Line>, commands: seq<seq<string>>, w: seq<string>, cmd: seq<string>, ks: seq<nat>,
                   config: Config, resources: string, noStop: bool, tunnel: Option<Tunnels.TunnelConfig>,
                   alloc: Option<Tailnet.Alloc>)
    requires alloc.Some? ==> config.tailnet.Some?
    requires Chosen(lines, commands, ks, config, resources, noStop, tunnel, alloc) && Stays(w, noStop)
    requires Done(cmd, w, config, resources, tunnel, alloc)
    ensures Chosen(lines + [Command(cmd)], commands + [w], ks + [|commands|], config, resources, noStop, tunnel, alloc)
  {
    hide Stays; hide Done;
    var n := |commands|;
    assert Ascending(ks + [n]);
    hide Ascending;
    forall k: nat ensures k in ks + [n] <==> k < n + 1 && Stays((commands + [w])[k], noStop) {
      if k < n { assert (commands + [w])[k] == commands[k]; }
    }
  }

  lemma ScriptKeeps(preamble: seq<Line>, config: Config, isHead: bool, tunnel: Option<Tunnels.TunnelConfig>,
                    relayHead: Option<string>, alloc: Option<Tailnet.Alloc>, resources: string, noStop: bool)
    requires alloc.Some? ==> config.tailnet.Some?
    ensures var access := AccessOf(config, tunnel, alloc);
            var script := preamble + Exports(config, access, isHead, relayHead)
                          + StartLines(config.startCommands, access, resources, noStop);
            CommandsKept(script, |preamble|, config, resources, noStop, tunnel, alloc)
  {
    hide *;
    var access := AccessOf(config, tunnel, alloc);
    var ks := LinesChosen(config.startCommands, config, resources, noStop, tunnel, alloc);
    ExportsExport(config, access, isHead, relayHead);
    KeptAfter(preamble, Exports(config, access, isHead, relayHead),
              StartLines(config.startCommands, access, resources,
                noStop), ks, config, resources, noStop, tunnel, alloc);
  }

  lemma ExportsExport(config: Config, access: Access, isHead: bool, relayHead: Option<string>)
    ensures forall i | 0 <= i < |Exports(config, access, isHead, relayHead)| ::
              Exports(config, access, isHead, relayHead)[i].Export?
  {
    hide IntText;
  }

  lemma KeptAfter(preamble: seq<Line>, ex: seq<Line>, lines: seq<Line>, ks: seq<nat>, config: Config, resources: string,
                  noStop: bool, tunnel: Option<Tunnels.TunnelConfig>, alloc: Option<Tailnet.Alloc>)
    requires alloc.Some? ==> config.tailnet.Some?
    requires Chosen(lines, config.startCommands, ks, config, resources, noStop, tunnel, alloc)
    requires forall i | 0 <= i < |ex| :: ex[i].Export?
    ensures CommandsKept(preamble + ex + lines, |preamble|, config, resources, noStop, tunnel, alloc)
  {
    hide Chosen;
    var script, e := preamble + ex + lines, |preamble| + |ex|;
    Lengths(lines, config.startCommands, ks, config, resources, noStop, tunnel, alloc);
    assert script[e..] == lines;
    assert forall i | |preamble| <= i < e :: script[i] == ex[i - |preamble|];
  }

  lemma Lengths(lines: seq<Line>, commands: seq<seq<string>>, ks: seq<nat>, config: Config, resources: string,
                noStop: bool, tunnel: Option<Tunnels.TunnelConfig>, alloc: Option<Tailnet.Alloc>)
    requires alloc.Some? ==> config.tailnet.Some?
    requires Chosen(lines, commands, ks, config, resources, noStop, tunnel, alloc)
    ensures |ks| == |lines|
  {
  }
}
