/** The GCS address a worker dials at bring-up, and the one teardown recomputes to stop it. */
module Teardown {

  import opened Results
  import opened Text
  import opened Addresses
  import opened ScopedStop
  import opened BringUp
  import Tailnet
  import Tunnels

  const AT_HEAD := "$RAY_HEAD_IP:"

  // ---------------------------------------------------------------- what a script means

  /** An address option: its text, and whether flag and text are one word. */
  datatype Given = Given(value: string, joined: bool)

  /** The last address option on a command line, which is the one that counts. */
  function AddressOption(words: seq<string>): Option<Given> {
    if words == [] then None
    else if words[0] == "--address" && |words| > 1 then
      match AddressOption(words[2..])
      case Some(g) => Some(g)
      case None => Some(Given(words[1], false))
    else
      match AddressOption(words[1..])
      case Some(g) => Some(g)
      case None => if StartsWith(words[0], ADDRESS_FLAG) then Some(Given(words[0][|ADDRESS_FLAG|..], true)) else None
  }

  /** The shell's expansion of the head variable in an address. */
  function Expand(value: string, head: string): string {
    if StartsWith(value, AT_HEAD) then head + ":" + value[|AT_HEAD|..] else value
  }

  function HeadVariable(script: seq<Line>): string {
    if script == [] then ""
    else
      var last := script[|script| - 1];
      if last.Export? && last.name == "RAY_HEAD_IP" then last.value else HeadVariable(script[..|script| - 1])
  }

  /** What a command dials when the head variable has the given value. */
  function DialOf(words: seq<string>, head: string): Option<string> {
    if !HasPair(words, "ray", "start") then None
    else match AddressOption(words) case None => None case Some(g) => Some(Expand(g.value, head))
  }

  /** The GCS addresses the script's `ray start` commands dial, in order. */
  function Dials(script: seq<Line>): seq<string> {
    if script == [] then []
    else
      var n := |script| - 1;
      var dial := if script[n].Command? then DialOf(script[n].words, HeadVariable(script[..n])) else None;
      Dials(script[..n]) + (match dial case Some(d) => [d] case None => [])
  }

  // ---------------------------------------------------------------- what the worker dials

  function HeadOf(config: Config, access: Access): string {
    match access
    case Relayed(tn, _) => tn.headAdvertiseIp
    case Tunneled(t) => t.tunnelIp
    case Direct => config.headIp
  }

  /** The port bring-up fills in for the placeholder. */
  function FilledPort(access: Access): string
    requires !access.Direct?
  {
    match access
    case Relayed(tn, _) => IntText(tn.gcsPort)
    case Tunneled(t) => Decimal(t.gcsPort)
  }

  function Filled(config: Config, access: Access): string
    requires !access.Direct?
  {
    HeadOf(config, access) + ":" + FilledPort(access)
  }

  /** Addresses are text without '$'. */
  predicate NoVariables(config: Config, access: Access) {
    HasNo(HeadOf(config, access), '$')
  }

  /** How a start command may name the head: by the variable and any port, or by an address of its own. */
  predicate Understood(value: string) {
    if StartsWith(value, AT_HEAD) then HasNo(value[|AT_HEAD|..], ':') else HasNo(value, '$')
  }

  /** The port a command naming the head by the variable dials. Bring-up fills its own in for a leading 6379, even
      that of 63790, and only where flag and address are one word. */
  function PortDialled(access: Access, g: Given): string
    requires StartsWith(g.value, AT_HEAD)
  {
    var port := g.value[|AT_HEAD|..];
    if !access.Direct? && g.joined && StartsWith(port, "6379") then FilledPort(access) + port[4..] else port
  }

  function Dialled(config: Config, access: Access, g: Given): string {
    if StartsWith(g.value, AT_HEAD) then HeadOf(config, access) + ":" + PortDialled(access, g) else g.value
  }

  // ---------------------------------------------------------------- rewriting keeps the options in place

  /** Replacing the placeholder by text that also starts with the flag changes nothing up to the flag's length. */
  lemma {:induction false} KeepsPrefix(s: string, new_: string, k: nat)
    requires StartsWith(new_, ADDRESS_FLAG) && k <= |ADDRESS_FLAG|
    ensures var r := ReplaceAll(s, new_);
            (|s| >= k <==> |r| >= k) && (|s| >= k ==> r[..k] == s[..k])
  {
    if StartsWith(s, PLACEHOLDER) {
      ReplaceFirst(s, new_);
      hide ReplaceAll;
      assert PLACEHOLDER[..|ADDRESS_FLAG|] == ADDRESS_FLAG;
      assert s[..k] == PLACEHOLDER[..k] == ADDRESS_FLAG[..k] == new_[..k];
    } else if s != "" && k > 0 {
      KeepsPrefix(s[1..], new_, k - 1);
      var r := ReplaceAll(s[1..], new_);
      hide ReplaceAll;
      assert |s| >= k ==> ([s[0]] + r)[..k] == [s[0]] + r[..k - 1] && s[..k] == [s[0]] + s[1..][..k - 1];
    }
  }

  lemma KeepsFlag(s: string, new_: string)
    requires StartsWith(new_, ADDRESS_FLAG)
    ensures StartsWith(ReplaceAll(s, new_), ADDRESS_FLAG) <==> StartsWith(s, ADDRESS_FLAG)
    ensures ReplaceAll(s, new_) == "--address" <==> s == "--address"
  {
    var r := ReplaceAll(s, new_);
    KeepsPrefix(s, new_, |ADDRESS_FLAG|);
    KeepsPrefix(s, new_, 9);
    hide *;
    FlagLengths();
    if |s| == 9 { assert r[..9] == r && s[..9] == s; }
    StartsWithIs(r, ADDRESS_FLAG);
    StartsWithIs(s, ADDRESS_FLAG);
  }

  lemma FlagLengths()
    ensures |ADDRESS_FLAG| == 10 && |"--address"| == 9
  {
  }

  lemma StartsWithIs(s: string, p: string)
    ensures StartsWith(s, p) <==> |p| <= |s| && s[..|p|] == p
  {
  }

  /** What rewriting makes of an address option. */
  function Rewritten(g: Given, new_: string): Given
    requires StartsWith(new_, ADDRESS_FLAG)
  {
    if g.joined then
      AfterFlag(g.value, new_);
      Given(ReplaceAll(ADDRESS_FLAG + g.value, new_)[|ADDRESS_FLAG|..], true)
    else Given(ReplaceAll(g.value, new_), false)
  }

  lemma AfterFlag(value: string, new_: string)
    requires StartsWith(new_, ADDRESS_FLAG)
    ensures StartsWith(ReplaceAll(ADDRESS_FLAG + value, new_), ADDRESS_FLAG)
  {
    hide ReplaceAll;
    KeepsFlag(ADDRESS_FLAG + value, new_);
    assert (ADDRESS_FLAG + value)[..|ADDRESS_FLAG|] == ADDRESS_FLAG;
  }

  lemma OptionIs(words: seq<string>)
    requires words != []
    ensures words[0] == "--address" && |words| > 1 ==>
              AddressOption(words)
              == match AddressOption(words[2..]) case Some(g) => Some(g) case None => Some(Given(words[1], false))
    ensures !(words[0] == "--address" && |words| > 1) ==>
              AddressOption(words)
              == match AddressOption(words[1..])
                 case Some(g) => Some(g)
                 case None => JoinedOption(words[0])
  {
  }

  function JoinedOption(word: string): Option<Given> {
    if StartsWith(word, ADDRESS_FLAG) then Some(Given(word[|ADDRESS_FLAG|..], true)) else None
  }

  lemma OptionNone()
    ensures AddressOption([]) == None
  {
  }

  lemma JoinedRewritten(word: string, new_: string)
    requires StartsWith(new_, ADDRESS_FLAG)
    ensures JoinedOption(ReplaceAll(word, new_))
            == match JoinedOption(word) case None => None case Some(g) => Some(Rewritten(g, new_))
  {
    hide ReplaceAll;
    KeepsFlag(word, new_);
    if StartsWith(word, ADDRESS_FLAG) { assert word == ADDRESS_FLAG + word[|ADDRESS_FLAG|..]; }
  }

  lemma SpacedRewritten(value: string, new_: string)
    requires StartsWith(new_, ADDRESS_FLAG)
    ensures Rewritten(Given(value, false), new_) == Given(ReplaceAll(value, new_), false)
  {
    hide ReplaceAll;
  }

  /** Rewriting a command rewrites its last address option and makes no other. */
  lemma {:induction false} OptionRewritten(words: seq<string>, new_: string)
    requires StartsWith(new_, ADDRESS_FLAG)
    ensures AddressOption(ReplaceWords(words, new_))
            == match AddressOption(words) case None => None case Some(g) => Some(Rewritten(g, new_))
    decreases |words|
  {
    hide *;
    var r := ReplaceWords(words, new_);
    if words == [] {
      assert r == [];
      OptionNone();
    } else {
      OptionIs(words);
      OptionIs(r);
      KeepsFlag(words[0], new_);
      if words[0] == "--address" && |words| > 1 {
        OptionRewritten(words[2..], new_);
        SpacedRewritten(words[1], new_);
        assert r[2..] == ReplaceWords(words[2..], new_);
      } else {
        OptionRewritten(words[1..], new_);
        JoinedRewritten(words[0], new_);
        assert r[1..] == ReplaceWords(words[1..], new_);
      }
    }
  }

  /** The flag is not left without its value at the end. */
  predicate Complete(words: seq<string>) {
    words == [] || words[|words| - 1] != "--address"
  }

  predicate IsAddressWord(word: string) {
    word == "--address" || StartsWith(word, ADDRESS_FLAG)
  }

  lemma {:induction false} NoOption(words: seq<string>)
    requires forall i | 0 <= i < |words| :: !IsAddressWord(words[i])
    ensures AddressOption(words).None?
  {
    if words != [] {
      assert !IsAddressWord(words[0]);
      assert forall i | 0 <= i < |words| - 1 :: words[1..][i] == words[i + 1];
      NoOption(words[1..]);
    }
  }

  lemma {:induction false} OptionAppend(words: seq<string>, more: seq<string>)
    requires Complete(words) && AddressOption(more).None?
    ensures AddressOption(words + more) == AddressOption(words)
    decreases |words|
  {
    hide AddressOption;
    if words == [] {
      assert words + more == more;
      OptionNone();
    } else {
      OptionIs(words);
      OptionIs(words + more);
      if words[0] == "--address" && |words| > 1 {
        OptionAppend(words[2..], more);
        assert (words + more)[2..] == words[2..] + more;
      } else {
        OptionAppend(words[1..], more);
        assert (words + more)[1..] == words[1..] + more;
      }
    }
  }

  lemma ResourcesWord(resources: string)
    ensures !IsAddressWord("--resources='" + resources + "'")
  {
    var w := "--resources='" + resources + "'";
    assert w[2] == 'r' && ADDRESS_FLAG[2] == 'a' && "--address"[2] == 'a';
    assert |w| >= 10 ==> w[..10][2] == 'r';
  }

  lemma PortWords(nodeIp: string, manager: int, objects: int, lo: int, hi: int)
    ensures AddressOption(PortFlags(nodeIp, manager, objects, lo, hi)).None?
  {
    var words := PortFlags(nodeIp, manager, objects, lo, hi);
    hide IntText;
    assert ADDRESS_FLAG[2] == 'a' && "--address"[2] == 'a';
    assert words[0][2] == 'n' && words[1][2] == 'n' && words[2][2] == 'o' && words[3][2] == 'm' && words[4][2] == 'm';
    forall i | 0 <= i < |words| ensures !IsAddressWord(words[i]) {
      assert words[i][2] != 'a';
      OtherStart(words[i]);
    }
    NoOption(words);
  }

  lemma OtherStart(word: string)
    requires |word| > 2 && word[2] != 'a'
    ensures !IsAddressWord(word)
  {
    assert ADDRESS_FLAG[2] == 'a' && "--address"[2] == 'a';
    assert |word| >= 10 ==> word[..10][2] == word[2];
  }

  lemma StartWordsAre(words: seq<string>, config: Config, access: Access, resources: string) returns (more: seq<string>)
    ensures var w := words + ["--resources='" + resources + "'"];
            if access.Direct? then StartWords(words, access, resources) == w
            else StartWords(words, access, resources) == ReplaceWords(w, ADDRESS_FLAG + Filled(config, access)) + more
                 && AddressOption(more).None?
  {
    hide IntText; hide Decimal; hide ReplaceWords; hide AddressOption;
    match access
    case Relayed(tn, a) =>
      more := PortFlags(a.advertiseIp, a.nodeManagerPort, a.objectManagerPort, a.workerMin, a.workerMax);
      PortWords(a.advertiseIp, a.nodeManagerPort, a.objectManagerPort, a.workerMin, a.workerMax);
    case Tunneled(t) =>
      more := PortFlags(t.tunnelIp, t.nodeManagerPort, t.objectManagerPort, t.workerMin, t.workerMax);
      PortWords(t.tunnelIp, t.nodeManagerPort, t.objectManagerPort, t.workerMin, t.workerMax);
    case Direct =>
      more := [];
  }

  lemma FlagFirst(text: string)
    ensures StartsWith(ADDRESS_FLAG + text, ADDRESS_FLAG)
  {
  }

  function Finished(config: Config, access: Access, g: Given): Given {
    if access.Direct? then g
    else
      FlagFirst(Filled(config, access));
      Rewritten(g, ADDRESS_FLAG + Filled(config, access))
  }

  lemma CompleteRewritten(words: seq<string>, word: string, new_: string)
    requires StartsWith(new_, ADDRESS_FLAG) && word != "--address"
    ensures Complete(ReplaceWords(words + [word], new_))
  {
    hide ReplaceAll;
    KeepsFlag(word, new_);
  }

  /** The address option of the finished command is the command's own, rewritten. */
  lemma StartOption(words: seq<string>, config: Config, access: Access, resources: string)
    requires Complete(words)
    ensures AddressOption(StartWords(words, access, resources))
            == match AddressOption(words) case None => None case Some(g) => Some(Finished(config, access, g))
  {
    var word := "--resources='" + resources + "'";
    ResourcesWord(resources);
    NoOption([word]);
    var more := StartWordsAre(words, config, access, resources);
    assert word != "--address";
    hide AddressOption; hide StartWords; hide ReplaceWords; hide Rewritten; hide Complete; hide Filled;
    OptionAppend(words, [word]);
    if !access.Direct? {
      var new_ := ADDRESS_FLAG + Filled(config, access);
      FlagFirst(Filled(config, access));
      OptionRewritten(words + [word], new_);
      CompleteRewritten(words, word, new_);
      OptionAppend(ReplaceWords(words + [word], new_), more);
    }
  }

  // ---------------------------------------------------------------- what the finished option dials

  lemma ReplaceFirst(s: string, new_: string)
    requires StartsWith(s, PLACEHOLDER)
    ensures |PLACEHOLDER| <= |s| && ReplaceAll(s, new_) == new_ + ReplaceAll(s[|PLACEHOLDER|..], new_)
  {
  }

  /** Nothing is replaced where the placeholder's j-th character does not occur from there on. */
  lemma {:induction false} ReplaceNothing(s: string, new_: string, j: nat)
    requires j < |PLACEHOLDER| && forall i | j <= i < |s| :: s[i] != PLACEHOLDER[j]
    ensures ReplaceAll(s, new_) == s
  {
    StartsAt(s, PLACEHOLDER, j);
    if s != "" {
      assert forall i | j <= i < |s| - 1 :: s[1..][i] == s[i + 1];
      ReplaceNothing(s[1..], new_, j);
    }
  }

  lemma PlaceholderParts()
    ensures PLACEHOLDER == ADDRESS_FLAG + AT_HEAD + "6379" && |ADDRESS_FLAG| == 10 && |AT_HEAD| == 13
            && |PLACEHOLDER| == 27
    ensures PLACEHOLDER[22] == ':' && PLACEHOLDER[10] == '$'
    ensures HasNo(ADDRESS_FLAG, '$') && HasNo(ADDRESS_FLAG, ':') && AT_HEAD[12] == ':' && AT_HEAD[0] == '$'
    ensures forall i | 0 <= i < 12 :: AT_HEAD[i] != ':'
  {
  }

  lemma RewrittenFill(port: string, new_: string)
    requires StartsWith(new_, ADDRESS_FLAG) && StartsWith(port, "6379") && HasNo(port, ':')
    ensures Rewritten(Given(AT_HEAD + port, true), new_) == Given(new_[|ADDRESS_FLAG|..] + port[4..], true)
  {
    PlaceholderParts();
    hide ReplaceAll; hide HasNo;
    var s, rest := ADDRESS_FLAG + (AT_HEAD + port), port[4..];
    assert port == "6379" + rest;
    assert s == PLACEHOLDER + rest;
    assert s[..27] == PLACEHOLDER && s[27..] == rest;
    ReplaceFirst(s, new_);
    ColonFree(rest, port, new_);
    assert (new_ + rest)[|ADDRESS_FLAG|..] == new_[|ADDRESS_FLAG|..] + rest;
  }

  lemma ColonFree(rest: string, port: string, new_: string)
    requires HasNo(port, ':') && |port| >= 4 && rest == port[4..]
    ensures ReplaceAll(rest, new_) == rest
  {
    PlaceholderParts();
    hide ReplaceAll;
    ReplaceNothing(rest, new_, 22);
  }

  lemma RewrittenOther(port: string, new_: string, joined: bool)
    requires StartsWith(new_, ADDRESS_FLAG) && HasNo(port, ':') && !(joined && StartsWith(port, "6379"))
    ensures Rewritten(Given(AT_HEAD + port, joined), new_) == Given(AT_HEAD + port, joined)
  {
    PlaceholderParts();
    hide ReplaceAll;
    if joined {
      var s := ADDRESS_FLAG + (AT_HEAD + port);
      OtherPort(s, port);
      assert forall i | 22 <= i < |s[1..]| :: s[1..][i] == port[i - 22];
      ReplaceNothing(s[1..], new_, 22);
      ReplaceStep(s, new_);
      assert s[|ADDRESS_FLAG|..] == AT_HEAD + port;
    } else {
      var s := AT_HEAD + port;
      assert forall i | 22 <= i < |s| :: s[i] == port[i - 13];
      ReplaceNothing(s, new_, 22);
    }
  }

  lemma ReplaceStep(s: string, new_: string)
    requires s != "" && !StartsWith(s, PLACEHOLDER) && ReplaceAll(s[1..], new_) == s[1..]
    ensures ReplaceAll(s, new_) == s
  {
  }

  lemma OtherPort(s: string, port: string)
    requires s == ADDRESS_FLAG + (AT_HEAD + port)
    ensures StartsWith(s, PLACEHOLDER) ==> StartsWith(port, "6379")
  {
    PlaceholderParts();
    hide *;
    var before := ADDRESS_FLAG + AT_HEAD;
    assert s == before + port;
    PrefixRest(before, "6379", port);
  }

  lemma PrefixRest(a: string, b: string, rest: string)
    ensures StartsWith(a + rest, a + b) ==> StartsWith(rest, b)
  {
    if StartsWith(a + rest, a + b) {
      assert (a + b)[|a|..] == b;
      assert rest[..|b|] == (a + rest)[..|a + b|][|a|..];
    }
  }

  lemma RewrittenLiteral(g: Given, new_: string)
    requires StartsWith(new_, ADDRESS_FLAG) && HasNo(g.value, '$')
    ensures Rewritten(g, new_) == g
  {
    PlaceholderParts();
    hide ReplaceAll;
    if g.joined {
      var s := ADDRESS_FLAG + g.value;
      assert forall i | 10 <= i < |s| :: s[i] == g.value[i - 10];
      ReplaceNothing(s, new_, 10);
      assert s[|ADDRESS_FLAG|..] == g.value;
    } else {
      ReplaceNothing(g.value, new_, 10);
    }
  }

  lemma ExpandLiteral(value: string, head: string)
    requires value == "" || value[0] != '$'
    ensures Expand(value, head) == value
  {
    StartsAt(value, AT_HEAD, 0);
  }

  lemma ExpandHead(port: string, head: string)
    ensures Expand(AT_HEAD + port, head) == head + ":" + port
  {
    assert (AT_HEAD + port)[..|AT_HEAD|] == AT_HEAD && (AT_HEAD + port)[|AT_HEAD|..] == port;
  }

  lemma PortOfHead(value: string)
    requires StartsWith(value, AT_HEAD)
    ensures value == AT_HEAD + value[|AT_HEAD|..]
  {
  }

  lemma FilledText(config: Config, access: Access, rest: string)
    requires !access.Direct? && NoVariables(config, access)
    ensures var v := Filled(config, access) + rest;
            v == HeadOf(config, access) + ":" + (FilledPort(access) + rest) && (v == "" || v[0] != '$')
    ensures (ADDRESS_FLAG + Filled(config, access))[|ADDRESS_FLAG|..] == Filled(config, access)
  {
    hide FilledPort;
    var h, v := HeadOf(config, access), Filled(config, access) + rest;
    assert v == h + ":" + (FilledPort(access) + rest);
    assert v[0] == if h == "" then ':' else h[0];
  }

  /** What the finished option expands to. */
  lemma FinishedDials(config: Config, access: Access, g: Given)
    requires Understood(g.value) && NoVariables(config, access)
    ensures Expand(Finished(config, access, g).value, HeadOf(config, access)) == Dialled(config, access, g)
  {
    var head := HeadOf(config, access);
    hide Rewritten; hide Filled; hide FilledPort; hide HeadOf; hide NoVariables; hide Expand; hide HasNo;
    if !StartsWith(g.value, AT_HEAD) {
      if !access.Direct? {
        FlagFirst(Filled(config, access));
        RewrittenLiteral(g, ADDRESS_FLAG + Filled(config, access));
      }
      LiteralStart(g.value);
      ExpandLiteral(g.value, head);
    } else {
      var port := g.value[|AT_HEAD|..];
      PortOfHead(g.value);
      if access.Direct? {
        ExpandHead(port, head);
      } else {
        var new_ := ADDRESS_FLAG + Filled(config, access);
        FlagFirst(Filled(config, access));
        if g.joined && StartsWith(port, "6379") {
          RewrittenFill(port, new_);
          FilledText(config, access, port[4..]);
          ExpandLiteral(Filled(config, access) + port[4..], head);
        } else {
          RewrittenOther(port, new_, g.joined);
          ExpandHead(port, head);
        }
      }
    }
  }

  lemma LiteralStart(value: string)
    requires HasNo(value, '$')
    ensures value == "" || value[0] != '$'
  {
  }

  /** The words "ray" and "start" stay where they are. */
  lemma KeepsPair(words: seq<string>, config: Config, access: Access, resources: string)
    requires HasPair(words, "ray", "start")
    ensures HasPair(StartWords(words, access, resources), "ray", "start")
  {
    hide *;
    var more := StartWordsAre(words, config, access, resources);
    PairAppend(words, ["--resources='" + resources + "'"], "ray", "start");
    if !access.Direct? {
      var w, new_ := words + ["--resources='" + resources + "'"], ADDRESS_FLAG + Filled(config, access);
      ShortWord("ray", new_);
      ShortWord("start", new_);
      PairReplaced(w, new_, "ray", "start");
      PairAppend(ReplaceWords(w, new_), more, "ray", "start");
    }
  }

  lemma PairAppend(words: seq<string>, more: seq<string>, a: string, b: string)
    requires HasPair(words, a, b)
    ensures HasPair(words + more, a, b)
  {
    var i :| 0 <= i < |words| - 1 && words[i] == a && words[i + 1] == b;
    assert (words + more)[i] == a && (words + more)[i + 1] == b;
  }

  lemma PairReplaced(words: seq<string>, new_: string, a: string, b: string)
    requires HasPair(words, a, b) && ReplaceAll(a, new_) == a && ReplaceAll(b, new_) == b
    ensures HasPair(ReplaceWords(words, new_), a, b)
  {
    hide ReplaceAll;
    var i :| 0 <= i < |words| - 1 && words[i] == a && words[i + 1] == b;
    assert ReplaceWords(words, new_)[i] == a && ReplaceWords(words, new_)[i + 1] == b;
  }

  lemma ShortWord(s: string, new_: string)
    requires s == "ray" || s == "start"
    ensures ReplaceAll(s, new_) == s
  {
    PlaceholderParts();
    hide ReplaceAll;
    ReplaceNothing(s, new_, 22);
  }

  lemma PairAt(words: seq<string>, i: nat, a: string, b: string)
    requires i + 1 < |words| && words[i] == a && words[i + 1] == b
    ensures HasPair(words, a, b)
  {
  }

  /** A command whose address option, if it has one, names the head in a way that is understood. */
  predicate Readable(words: seq<string>) {
    Complete(words) && (AddressOption(words).Some? ==> Understood(AddressOption(words).value.value))
  }

  /** What a start command dials once bring-up has finished it. */
  function CommandDials(config: Config, access: Access, words: seq<string>): Option<string> {
    match AddressOption(words) case None => None case Some(g) => Some(Dialled(config, access, g))
  }

  lemma StartDials(words: seq<string>, config: Config, access: Access, resources: string)
    requires StartsRay(words) && Readable(words) && NoVariables(config, access)
    ensures DialOf(StartWords(words, access, resources), HeadOf(config, access)) == CommandDials(config, access, words)
  {
    KeepsPair(words, config, access, resources);
    StartOption(words, config, access, resources);
    if AddressOption(words).Some? { FinishedDials(config, access, AddressOption(words).value); }
    hide StartWords; hide HeadOf; hide Expand; hide HasPair; hide AddressOption; hide Understood; hide Dialled;
    hide Finished;
  }

  lemma AddressWordMentions(word: string)
    ensures IsAddressWord(word) ==> Contains(word, "--address")
  {
    if IsAddressWord(word) {
      assert ADDRESS_FLAG[..9] == "--address";
      assert word[..9] == if word == "--address" then word else word[..10][..9];
    }
  }

  lemma OtherDials(words: seq<string>, head: string)
    requires !StartsRay(words)
    ensures DialOf(words, head).None?
  {
    if HasPair(words, "ray", "start") {
      forall i | 0 <= i < |words| ensures !IsAddressWord(words[i]) { AddressWordMentions(words[i]); }
      NoOption(words);
    }
  }

  // ---------------------------------------------------------------- the whole script

  ghost predicate Silent(lines: seq<Line>) {
    forall i | 0 <= i < |lines| :: lines[i].Export?
  }

  ghost predicate KeepsHead(lines: seq<Line>) {
    forall i | 0 <= i < |lines| :: lines[i].Export? ==> lines[i].name != "RAY_HEAD_IP"
  }

  lemma {:induction false} HeadKept(script: seq<Line>, lines: seq<Line>)
    requires KeepsHead(lines)
    ensures HeadVariable(script + lines) == HeadVariable(script)
  {
    if lines == [] {
      assert script + lines == script;
    } else {
      var n := |lines| - 1;
      HeadKept(script, lines[..n]);
      assert (script + lines)[..|script| + n] == script + lines[..n];
    }
  }

  lemma {:induction false} ExportsSilent(script: seq<Line>, lines: seq<Line>)
    requires Silent(lines)
    ensures Dials(script + lines) == Dials(script)
  {
    if lines == [] {
      assert script + lines == script;
    } else {
      var n := |lines| - 1;
      ExportsSilent(script, lines[..n]);
      assert (script + lines)[..|script| + n] == script + lines[..n];
    }
  }

  lemma ExportsShape(config: Config, access: Access, isHead: bool, relayHead: Option<string>)
    ensures var e := Exports(config, access, isHead, relayHead);
            |e| > 0 && e[0] == Export("RAY_HEAD_IP", HeadOf(config, access)) && Silent(e) && KeepsHead(e[1..])
  {
    hide IntText;
  }

  lemma {:induction false} LinesKeepHead(commands: seq<seq<string>>, access: Access, resources: string, noStop: bool)
    ensures KeepsHead(StartLines(commands, access, resources, noStop))
  {
    hide StartWords; hide StartsRay; hide Skipped;
    if commands != [] { LinesKeepHead(commands[..|commands| - 1], access, resources, noStop); }
  }

  /** A command that stays in the script and starts Ray. */
  predicate Starts(words: seq<string>, noStop: bool) {
    !Skipped(words, noStop) && StartsRay(words)
  }

  function DialList(dial: Option<string>): seq<string> {
    match dial case Some(d) => [d] case None => []
  }

  /** What the start commands that stay dial, in order. */
  function DialledBy(config: Config, access: Access, commands: seq<seq<string>>, noStop: bool): seq<string> {
    if commands == [] then []
    else
      var n := |commands| - 1;
      DialledBy(config, access, commands[..n], noStop)
      + (if Starts(commands[n], noStop) then DialList(CommandDials(config, access, commands[n])) else [])
  }

  ghost predicate ReadableCommands(commands: seq<seq<string>>) {
    forall i | 0 <= i < |commands| :: StartsRay(commands[i]) ==> Readable(commands[i])
  }

  lemma {:induction false} LinesDial(script: seq<Line>, commands: seq<seq<string>>, config: Config, access: Access,
                                     resources: string, noStop: bool)
    requires Dials(script) == [] && HeadVariable(script) == HeadOf(config, access)
    requires ReadableCommands(commands) && NoVariables(config, access)
    ensures Dials(script + StartLines(commands, access, resources, noStop))
            == DialledBy(config, access, commands, noStop)
  {
    hide *;
    if commands == [] {
      NoLines(script, commands, access, resources, noStop);
      NothingDialled(commands, config, access, noStop);
    } else {
      var n := |commands| - 1;
      var w, lines := commands[n], StartLines(commands[..n], access, resources, noStop);
      ReadableLast(commands);
      LinesKeepHead(commands[..n], access, resources, noStop);
      HeadKept(script, lines);
      LinesDial(script, commands[..n], config, access, resources, noStop);
      LinesSnoc(commands, access, resources, noStop);
      DialledSnoc(commands, config, access, noStop);
      StartsIs(w, noStop);
      if Skipped(w, noStop) {
        assert lines + [] == lines;
      } else if StartsRay(w) {
        StartDials(w, config, access, resources);
        LineDials(script, lines, Command(StartWords(w, access, resources)), HeadOf(config, access));
      } else {
        OtherDials(w, HeadOf(config, access));
        LineDials(script, lines, Command(w), HeadOf(config, access));
        DialListNone();
      }
    }
  }

  lemma StartsIs(words: seq<string>, noStop: bool)
    ensures Starts(words, noStop) <==> !Skipped(words, noStop) && StartsRay(words)
  {
  }

  lemma DialListNone()
    ensures DialList(None) == []
  {
  }

  lemma LineDials(script: seq<Line>, lines: seq<Line>, line: Line, head: string)
    requires HeadVariable(script + lines) == head && line.Command?
    ensures Dials(script + (lines + [line])) == Dials(script + lines) + DialList(DialOf(line.words, head))
  {
    hide *;
    DialsSnoc(script + lines, line);
    assert script + (lines + [line]) == (script + lines) + [line];
  }

  lemma NothingDialled(commands: seq<seq<string>>, config: Config, access: Access, noStop: bool)
    requires commands == []
    ensures DialledBy(config, access, commands, noStop) == []
  {
  }

  lemma ReadableLast(commands: seq<seq<string>>)
    requires ReadableCommands(commands) && commands != []
    ensures ReadableCommands(commands[..|commands| - 1])
    ensures StartsRay(commands[|commands| - 1]) ==> Readable(commands[|commands| - 1])
  {
    hide StartsRay; hide Readable;
    assert forall i | 0 <= i < |commands| - 1 :: commands[..|commands| - 1][i] == commands[i];
  }

  lemma DialledSnoc(commands: seq<seq<string>>, config: Config, access: Access, noStop: bool)
    requires commands != []
    ensures var n := |commands| - 1;
            DialledBy(config, access, commands, noStop)
            == DialledBy(config, access, commands[..n], noStop)
               + (if Starts(commands[n], noStop) then DialList(CommandDials(config, access, commands[n])) else [])
  {
    hide Starts; hide CommandDials;
  }

  lemma DialsSnoc(script: seq<Line>, line: Line)
    ensures Dials(script + [line])
            == Dials(script) + (if line.Export? then [] else DialList(DialOf(line.words, HeadVariable(script))))
  {
    assert (script + [line])[..|script|] == script;
    hide DialOf; hide HeadVariable;
  }

  /** Running the script: the start commands it keeps dial, each by its own address option. */
  lemma ScriptDials(config: Config, preamble: seq<Line>, access: Access, isHead: bool, relayHead: Option<string>,
                    resources: string, noStop: bool)
    requires Dials(preamble) == [] && ReadableCommands(config.startCommands) && NoVariables(config, access)
    ensures Dials(preamble + Exports(config, access, isHead, relayHead)
                  + StartLines(config.startCommands, access, resources, noStop))
            == DialledBy(config, access, config.startCommands, noStop)
  {
    var e := Exports(config, access, isHead, relayHead);
    ExportsShape(config, access, isHead, relayHead);
    hide *;
    ExportsHead(preamble, e);
    LinesDial(preamble + e, config.startCommands, config, access, resources, noStop);
  }

  lemma ExportsHead(preamble: seq<Line>, e: seq<Line>)
    requires |e| > 0 && e[0].Export? && e[0].name == "RAY_HEAD_IP" && Silent(e) && KeepsHead(e[1..])
    ensures HeadVariable(preamble + e) == e[0].value && Dials(preamble + e) == Dials(preamble)
  {
    hide *;
    ExportsSilent(preamble, e);
    HeadKept(preamble + [e[0]], e[1..]);
    HeadExported(preamble, e[0]);
    assert preamble + e == (preamble + [e[0]]) + e[1..];
  }

  lemma HeadExported(script: seq<Line>, line: Line)
    requires line.Export? && line.name == "RAY_HEAD_IP"
    ensures HeadVariable(script + [line]) == line.value
  {
    assert (script + [line])[..|script|] == script;
  }

  // ---------------------------------------------------------------- what teardown looks for

  /** The address recomputed for a worker on machine `ip`. */
  function GcsAddressForNode(config: Config, ip: string, tunnel: Option<Tunnels.TunnelConfig>): string {
    if ip in config.tailnetIps && config.tailnet.Some? then
      BuildAddress(config.tailnet.value.headAdvertiseIp, Decimal(config.headGcsPort))
    else if tunnel.Some? then BuildAddress(tunnel.value.tunnelIp, Decimal(tunnel.value.gcsPort))
    else config.HeadRayAddress()
  }

  /** What bring-up passes: in a tailnet cluster every worker is on a tailnet machine or the head's and
      is relayed, and tunnels are not allowed; elsewhere nobody is relayed. */
  ghost predicate BroughtUp(config: Config, ip: string, tunnel: Option<Tunnels.TunnelConfig>,
                            alloc: Option<Tailnet.Alloc>) {
    && (config.tailnet.Some? <==> alloc.Some?)
    && (config.tailnet.Some? ==> tunnel.None? && (ip in config.tailnetIps || ip == config.headIp))
    && (tunnel.Some? ==> HasNo(tunnel.value.tunnelIp, ':'))
    && (config.tailnet.Some? ==> HasNo(config.tailnet.value.headAdvertiseIp, ':'))
  }

  /** When the two sides agree. A command that names the head by the variable must name the port teardown looks for:
      for a direct worker the head's; for a tunneled one 6379, or, unless it is rewritten, the tunnel's own; for a
      relayed one the head's, or 6379 with equal GCS ports, and on the head machine the head's address must also be
      the advertised one. A command with an address of its own must give the very text. */
  predicate Agrees(config: Config, ip: string, tunnel: Option<Tunnels.TunnelConfig>, access: Access, g: Given) {
    if !StartsWith(g.value, AT_HEAD) then g.value == GcsAddressForNode(config, ip, tunnel)
    else
      var port := g.value[|AT_HEAD|..];
      var rewritten := g.joined && StartsWith(port, "6379");
      match access
      case Direct => port == Decimal(config.headGcsPort)
      case Tunneled(t) => if rewritten then port == "6379" else port == Decimal(t.gcsPort)
      case Relayed(tn, _) =>
        && (ip in config.tailnetIps || tn.headAdvertiseIp == config.headIp)
        && (if rewritten then IntText(tn.gcsPort) + port[4..] else port) == Decimal(config.headGcsPort)
  }

  lemma IntTextHasNoColon(n: int)
    ensures HasNo(IntText(n), ':')
  {
    if n < 0 { DigitsHaveNo(Decimal(-n), ':'); } else { DigitsHaveNo(Decimal(n), ':'); }
  }

  /** host:port is read back from the last colon. */
  lemma PairsDiffer(h: string, p: string, h': string, p': string)
    requires HasNo(p, ':') && HasNo(p', ':') && h + ":" + p == h' + ":" + p'
    ensures h == h' && p == p'
  {
    var s := h + ":" + p;
    LastColonIs(h, p);
    LastColonIs(h', p');
    assert s[..|h|] == h && s[|h| + 1..] == p && s[..|h'|] == h' && s[|h'| + 1..] == p';
  }

  lemma SameHead(h: string, p: string, q: string)
    ensures h + ":" + p == h + ":" + q <==> p == q
  {
    assert (h + ":" + p)[|h| + 1..] == p && (h + ":" + q)[|h| + 1..] == q;
  }

  lemma AppendedPort(n: nat, rest: string)
    ensures Decimal(n) + rest == Decimal(n) <==> rest == ""
  {
    hide Decimal;
    if rest == "" { assert Decimal(n) + rest == Decimal(n); }
  }

  lemma TailHasNo(s: string, k: nat, c: char)
    requires HasNo(s, c) && k <= |s|
    ensures HasNo(s[k..], c)
  {
  }

  lemma JoinHasNo(a: string, b: string, c: char)
    requires HasNo(a, c) && HasNo(b, c)
    ensures HasNo(a + b, c)
  {
  }

  lemma PortDialledClean(access: Access, g: Given)
    requires StartsWith(g.value, AT_HEAD) && Understood(g.value)
    ensures HasNo(PortDialled(access, g), ':')
  {
    var port := g.value[|AT_HEAD|..];
    if !access.Direct? && g.joined && StartsWith(port, "6379") {
      if access.Relayed? {
        IntTextHasNoColon(access.tn.gcsPort);
      } else {
        DigitsHaveNo(Decimal(access.tunnel.gcsPort), ':');
      }
      hide IntText; hide Decimal; hide HasNo;
      TailHasNo(port, 4, ':');
      JoinHasNo(FilledPort(access), port[4..], ':');
    }
  }

  lemma NoBracket(host: string, port: string)
    requires HasNo(host, ':')
    ensures BuildAddress(host, port) == host + ":" + port
  {
  }

  lemma TargetIs(config: Config, ip: string, tunnel: Option<Tunnels.TunnelConfig>, alloc: Option<Tailnet.Alloc>)
    requires BroughtUp(config, ip, tunnel, alloc)
    ensures GcsAddressForNode(config, ip, tunnel)
            == match AccessOf(config, tunnel, alloc)
               case Direct => config.headIp + ":" + Decimal(config.headGcsPort)
               case Tunneled(t) => t.tunnelIp + ":" + Decimal(t.gcsPort)
               case Relayed(tn, _) =>
                 (if ip in config.tailnetIps then tn.headAdvertiseIp else config.headIp) + ":"
                   + Decimal(config.headGcsPort)
  {
    hide Decimal; hide BuildAddress; hide HasNo;
    if config.tailnet.Some? { NoBracket(config.tailnet.value.headAdvertiseIp, Decimal(config.headGcsPort)); }
    if tunnel.Some? { NoBracket(tunnel.value.tunnelIp, Decimal(tunnel.value.gcsPort)); }
  }

  lemma HostsAndPorts(h: string, p: string, h': string, n: nat)
    requires HasNo(p, ':')
    ensures h + ":" + p == h' + ":" + Decimal(n) <==> h == h' && p == Decimal(n)
  {
    DigitsHaveNo(Decimal(n), ':');
    hide Decimal; hide HasNo;
    if h + ":" + p == h' + ":" + Decimal(n) { PairsDiffer(h, p, h', Decimal(n)); }
  }

  /** Teardown recomputes exactly what the start command dials if and only if Agrees. */
  lemma UpDownAgreement(config: Config, ip: string, tunnel: Option<Tunnels.TunnelConfig>, alloc: Option<Tailnet.Alloc>,
                        g: Given)
    requires BroughtUp(config, ip, tunnel, alloc) && Understood(g.value)
    ensures var access := AccessOf(config, tunnel, alloc);
            Dialled(config, access, g) == GcsAddressForNode(config, ip, tunnel)
            <==> Agrees(config, ip, tunnel, access, g)
  {
    var access := AccessOf(config, tunnel, alloc);
    TargetIs(config, ip, tunnel, alloc);
    if StartsWith(g.value, AT_HEAD) {
      PortDialledClean(access, g);
      var q := PortDialled(access, g);
      hide GcsAddressForNode; hide IntText; hide Decimal; hide HasNo; hide Understood; hide StartsWith;
      match access
      case Direct =>
        SameHead(config.headIp, q, Decimal(config.headGcsPort));
      case Tunneled(t) =>
        SameHead(t.tunnelIp, q, Decimal(t.gcsPort));
        FilledTunnel(t, g);
      case Relayed(tn, _) =>
        HostsAndPorts(tn.headAdvertiseIp, q, tn.headAdvertiseIp, config.headGcsPort);
        HostsAndPorts(tn.headAdvertiseIp, q, config.headIp, config.headGcsPort);
    }
  }

  lemma FilledTunnel(t: Tunnels.TunnelConfig, g: Given)
    requires StartsWith(g.value, AT_HEAD)
    ensures var port := g.value[|AT_HEAD|..];
            g.joined && StartsWith(port, "6379") ==>
              (Decimal(t.gcsPort) + port[4..] == Decimal(t.gcsPort) <==> port == "6379")
  {
    var port := g.value[|AT_HEAD|..];
    if g.joined && StartsWith(port, "6379") {
      AppendedPort(t.gcsPort, port[4..]);
      hide Decimal;
      assert port == "6379" + port[4..];
    }
  }

  /** Every start command that stays names an address both sides agree on. */
  ghost predicate AllAgree(config: Config, ip: string, tunnel: Option<Tunnels.TunnelConfig>, access: Access,
                           commands: seq<seq<string>>, noStop: bool) {
    forall i | 0 <= i < |commands| && Starts(commands[i], noStop) && AddressOption(commands[i]).Some? ::
      Agrees(config, ip, tunnel, access, AddressOption(commands[i]).value)
  }

  ghost predicate AllAre(dials: seq<string>, target: string) {
    forall i | 0 <= i < |dials| :: dials[i] == target
  }

  lemma AllAreAppend(a: seq<string>, b: seq<string>, target: string)
    ensures AllAre(a + b, target) <==> AllAre(a, target) && AllAre(b, target)
    ensures a == [] ==> AllAre(a, target)
    ensures |b| == 1 ==> (AllAre(b, target) <==> b[0] == target)
  {
    assert forall i | 0 <= i < |a| :: (a + b)[i] == a[i];
    assert forall i | 0 <= i < |b| :: (a + b)[|a| + i] == b[i];
  }

  lemma AllAgreeLast(config: Config, ip: string, tunnel: Option<Tunnels.TunnelConfig>, access: Access,
                     commands: seq<seq<string>>, noStop: bool)
    ensures commands == [] ==> AllAgree(config, ip, tunnel, access, commands, noStop)
    ensures commands != [] ==>
              var n := |commands| - 1;
              AllAgree(config, ip, tunnel, access, commands, noStop)
              <==> AllAgree(config, ip, tunnel, access, commands[..n], noStop)
                   && (Starts(commands[n], noStop) && AddressOption(commands[n]).Some? ==>
                         Agrees(config, ip, tunnel, access, AddressOption(commands[n]).value))
  {
    hide Starts; hide AddressOption; hide Agrees;
    if commands != [] {
      var n := |commands| - 1;
      assert forall i | 0 <= i < n :: commands[..n][i] == commands[i];
    }
  }

  lemma DialledByIs(config: Config, access: Access, commands: seq<seq<string>>, noStop: bool)
    ensures commands == [] ==> DialledBy(config, access, commands, noStop) == []
    ensures commands != [] ==>
              var n := |commands| - 1;
              DialledBy(config, access, commands, noStop)
              == DialledBy(config, access, commands[..n], noStop)
                 + (if Starts(commands[n], noStop) && AddressOption(commands[n]).Some?
                    then [Dialled(config, access, AddressOption(commands[n]).value)] else [])
  {
    hide Starts; hide AddressOption; hide Dialled;
  }

  lemma {:induction false} AllDialTarget(config: Config, ip: string, tunnel: Option<Tunnels.TunnelConfig>,
                                         alloc: Option<Tailnet.Alloc>, commands: seq<seq<string>>, noStop: bool)
    requires BroughtUp(config, ip, tunnel, alloc) && ReadableCommands(commands)
    ensures var access := AccessOf(config, tunnel, alloc);
            AllAre(DialledBy(config, access, commands, noStop), GcsAddressForNode(config, ip, tunnel))
            <==> AllAgree(config, ip, tunnel, access, commands, noStop)
  {
    var access := AccessOf(config, tunnel, alloc);
    hide *;
    var target := GcsAddressForNode(config, ip, tunnel);
    DialledByIs(config, access, commands, noStop);
    AllAgreeLast(config, ip, tunnel, access, commands, noStop);
    AllAreAppend([], [], target);
    if commands != [] {
      var n := |commands| - 1;
      ReadableLast(commands);
      AllDialTarget(config, ip, tunnel, alloc, commands[..n], noStop);
      var before := DialledBy(config, access, commands[..n], noStop);
      if Starts(commands[n], noStop) && AddressOption(commands[n]).Some? {
        var g := AddressOption(commands[n]).value;
        ReadableOption(commands[n], noStop);
        UpDownAgreement(config, ip, tunnel, alloc, g);
        AllAreAppend(before, [Dialled(config, access, g)], target);
      } else {
        assert before + [] == before;
      }
    }
  }

  lemma ReadableOption(words: seq<string>, noStop: bool)
    requires Starts(words, noStop) && (StartsRay(words) ==> Readable(words)) && AddressOption(words).Some?
    ensures Understood(AddressOption(words).value.value)
  {
    hide AddressOption; hide Understood; hide Complete; hide StartsRay;
  }

  /** End to end: after bring-up, every start command dials exactly the address teardown will look for, if and
      only if both sides agree on each. */
  lemma TeardownFindsWorker(config: Config, ip: string, preamble: seq<Line>, tunnel: Option<Tunnels.TunnelConfig>,
                            alloc: Option<Tailnet.Alloc>, relayHead: Option<string>, resources: string, noStop: bool)
    requires BroughtUp(config, ip, tunnel, alloc)
    requires Dials(preamble) == [] && ReadableCommands(config.startCommands)
             && NoVariables(config, AccessOf(config, tunnel, alloc))
    ensures var access := AccessOf(config, tunnel, alloc);
            var script := preamble + Exports(config, access, ip == config.headIp, relayHead)
                          + StartLines(config.startCommands, access, resources, noStop);
            AllAre(Dials(script), GcsAddressForNode(config, ip, tunnel))
            <==> AllAgree(config, ip, tunnel, access, config.startCommands, noStop)
  {
    var access := AccessOf(config, tunnel, alloc);
    hide *;
    ScriptDials(config, preamble, access, ip == config.headIp, relayHead, resources, noStop);
    AllDialTarget(config, ip, tunnel, alloc, config.startCommands, noStop);
  }

  // ---------------------------------------------------------------- clusters on another port

  /** A worker's start command in a cluster whose head uses port 6378. */
  const OTHER_PORT := ["ray", "start", "--address=$RAY_HEAD_IP:6378", "--temp-dir=/tmp/b"]

  lemma OtherPortWords()
    ensures |OTHER_PORT| == 4 && OTHER_PORT[0] == "ray" && OTHER_PORT[1] == "start"
    ensures OTHER_PORT[2] == ADDRESS_FLAG + (AT_HEAD + "6378") && !IsAddressWord(OTHER_PORT[3])
    ensures !IsAddressWord("ray") && !IsAddressWord("start") && OTHER_PORT[2] != "--address"
  {
    var last := OTHER_PORT[3];
    assert OTHER_PORT[2] == ADDRESS_FLAG + (AT_HEAD + "6378");
    assert last[2] == 't' && "start"[2] == 'a' && "start"[0] == 's' && "ray"[0] == 'r' && ADDRESS_FLAG[0] == '-';
    OtherStart(last);
  }

  lemma FlagWord(value: string)
    ensures JoinedOption(ADDRESS_FLAG + value) == Some(Given(value, true))
    ensures Contains(ADDRESS_FLAG + value, "--address")
  {
    var w := ADDRESS_FLAG + value;
    assert w[..10] == ADDRESS_FLAG && w[10..] == value;
    assert ADDRESS_FLAG[..9] == "--address" && w[..9] == ADDRESS_FLAG[..9];
    assert StartsWith(w, "--address");
  }

  lemma OneFlag(a: string, b: string, flag: string, last: string)
    requires a != "--address" && b != "--address" && flag != "--address"
    requires !IsAddressWord(a) && !IsAddressWord(b) && !IsAddressWord(last)
    ensures AddressOption([a, b, flag, last]) == JoinedOption(flag)
  {
    hide AddressOption;
    NoOption([last]);
    OptionIs([flag, last]);
    OptionIs([b, flag, last]);
    OptionIs([a, b, flag, last]);
    assert [flag, last][1..] == [last] && [b, flag, last][1..] == [flag, last];
    assert [a, b, flag, last][1..] == [b, flag, last];
  }

  lemma SixThreeSevenEightText()
    ensures HasNo("6378", ':') && !StartsWith("6378", "6379")
  {
    StartsAt("6378", "6379", 3);
  }

  lemma HeadValue(port: string)
    requires HasNo(port, ':')
    ensures StartsWith(AT_HEAD + port, AT_HEAD) && (AT_HEAD + port)[|AT_HEAD|..] == port && Understood(AT_HEAD + port)
  {
    assert (AT_HEAD + port)[..|AT_HEAD|] == AT_HEAD && (AT_HEAD + port)[|AT_HEAD|..] == port;
  }

  lemma OtherPortOption()
    ensures AddressOption(OTHER_PORT) == Some(Given(AT_HEAD + "6378", true))
    ensures StartsRay(OTHER_PORT) && Readable(OTHER_PORT)
  {
    hide *;
    var w := OTHER_PORT;
    OtherPortWords();
    OneFlag(w[0], w[1], w[2], w[3]);
    FlagWord(AT_HEAD + "6378");
    assert w == [w[0], w[1], w[2], w[3]];
    PairAt(w, 0, "ray", "start");
    SixThreeSevenEightText();
    HeadValue("6378");
    MentionAt(w, 2);
    MakeReadable(w);
  }

  lemma MentionAt(words: seq<string>, i: nat)
    requires i < |words| && Contains(words[i], "--address") && HasPair(words, "ray", "start")
    ensures StartsRay(words)
  {
    hide Contains; hide HasPair;
  }

  lemma MakeReadable(words: seq<string>)
    requires words != [] && !IsAddressWord(words[|words| - 1])
    requires AddressOption(words).Some? ==> Understood(AddressOption(words).value.value)
    ensures Readable(words)
  {
    hide AddressOption; hide Understood;
  }

  lemma NotFilled(config: Config, access: Access)
    ensures Dialled(config, access, Given(AT_HEAD + "6378", true)) == HeadOf(config, access) + ":" + "6378"
  {
    SixThreeSevenEightText();
    HeadValue("6378");
    hide HeadOf; hide FilledPort; hide StartsWith;
  }

  /** What the command dials, however the worker is reached. */
  lemma OtherPortDials(config: Config, access: Access, resources: string)
    requires NoVariables(config, access)
    ensures DialOf(StartWords(OTHER_PORT, access, resources), HeadOf(config, access))
            == Some(HeadOf(config, access) + ":" + "6378")
  {
    hide *;
    OtherPortOption();
    StartDials(OTHER_PORT, config, access, resources);
    CommandDialsIs(config, access, OTHER_PORT);
    NotFilled(config, access);
  }

  lemma CommandDialsIs(config: Config, access: Access, words: seq<string>)
    requires AddressOption(words).Some?
    ensures CommandDials(config, access, words) == Some(Dialled(config, access, AddressOption(words).value))
  {
    hide AddressOption; hide Dialled;
  }

  /** With head and workers on port 6378 a direct worker is found, although nothing rewrites its command. */
  lemma OtherPortFound(config: Config, ip: string, resources: string)
    requires config.tailnet.None? && config.headGcsPort == 6378 && HasNo(config.headIp, '$')
    ensures DialOf(StartWords(OTHER_PORT, Direct, resources), config.headIp)
            == Some(GcsAddressForNode(config, ip, None))
  {
    hide DialOf; hide StartWords; hide Decimal;
    OtherPortDials(config, Direct, resources);
    SixThreeSevenEight();
  }

  lemma SixThreeSevenEight()
    ensures Decimal(6378) == "6378"
  {
    assert Decimal(6378) == Decimal(637) + "8" && Decimal(637) == Decimal(63) + "7";
    assert Decimal(63) == Decimal(6) + "3" && Decimal(6) == "6";
  }

  /** Behind a tunnel with the default settings the same command is not rewritten either: the worker dials port 6378
      on its tunnel address, while the tunnel carries, and teardown looks for, another port. */
  lemma OtherPortMissesTunnel(config: Config, ip: string, resources: string)
    requires config.tailnet.None?
    ensures var t := Tunnels.DEFAULT.(tunnelIp := "127.0.0.2");
            && DialOf(StartWords(OTHER_PORT, Tunneled(t), resources), t.tunnelIp) == Some("127.0.0.2" + ":" + "6378")
            && GcsAddressForNode(config, ip, Some(t)) != "127.0.0.2" + ":" + "6378"
  {
    var t := Tunnels.DEFAULT.(tunnelIp := "127.0.0.2");
    SecondLoopback();
    hide HasNo; hide DialOf; hide StartWords; hide Decimal; hide BuildAddress;
    OtherPortDials(config, Tunneled(t), resources);
    NoBracket(t.tunnelIp, Decimal(t.gcsPort));
    SixThreeSevenEight();
    if Decimal(16379) == Decimal(6378) { DecimalInjective(16379, 6378); }
    SameHead(t.tunnelIp, Decimal(16379), "6378");
  }

  lemma SecondLoopback()
    ensures HasNo("127.0.0.2", '$') && HasNo("127.0.0.2", ':') && Tunnels.DEFAULT.gcsPort == 16379
  {
  }

  /** A relayed worker colocated with the head is missed: its processes carry the advertised address, the
      teardown looks for the head's own, and the two never compare equal unless they resolve alike. */
  lemma ColocatedMissed(config: Config, r: Resolver, alloc: Tailnet.Alloc, p: Proc)
    requires Proper(r) && config.tailnet.Some? && config.headIp !in config.tailnetIps
    requires config.tailnet.value.gcsPort == config.headGcsPort
    requires var port := Decimal(config.headGcsPort);
             WellFormed(config.headIp, port) && WellFormed(config.tailnet.value.headAdvertiseIp, port)
             && HasNo(config.headIp, ':') && HasNo(config.tailnet.value.headAdvertiseIp, ':')
    requires ExtractAddress(p.cmdline) == Some(Filled(config, AccessOf(config, None, Some(alloc))))
    ensures Attributed(p, r, [GcsAddressForNode(config, config.headIp, None)])
            <==> NormalizeHost(r, config.tailnet.value.headAdvertiseIp) == NormalizeHost(r, config.headIp)
  {
    var tn, port := config.tailnet.value, Decimal(config.headGcsPort);
    assert IntText(tn.gcsPort) == port;
    var dialled, target := BuildAddress(tn.headAdvertiseIp, port), BuildAddress(config.headIp, port);
    assert Filled(config, AccessOf(config, None, Some(alloc))) == dialled;
    assert GcsAddressForNode(config, config.headIp, None) == target;
    hide *;
    SameIffHostsAndPorts(r, tn.headAdvertiseIp, port, config.headIp, port);
    AttributedOne(p, r, target);
  }

  /** The address the head's own stop looks for. */
  function HeadGcsAddress(config: Config): string {
    if config.tailnet.Some? then BuildAddress(config.tailnet.value.headAdvertiseIp, Decimal(config.headGcsPort))
    else config.HeadRayAddress()
  }

  /** The stop of the head, which comes after those of the workers, does attribute that process. */
  lemma HeadStopFinds(config: Config, r: Resolver, alloc: Tailnet.Alloc, p: Proc)
    requires config.tailnet.Some? && config.tailnet.value.gcsPort == config.headGcsPort
    requires HasNo(config.tailnet.value.headAdvertiseIp, ':')
    requires ExtractAddress(p.cmdline) == Some(Filled(config, AccessOf(config, None, Some(alloc))))
    ensures Attributed(p, r, [HeadGcsAddress(config)])
  {
    var tn, port := config.tailnet.value, Decimal(config.headGcsPort);
    assert IntText(tn.gcsPort) == port;
    NoBracket(tn.headAdvertiseIp, port);
    assert Filled(config, AccessOf(config, None, Some(alloc))) == HeadGcsAddress(config);
    hide *;
    AttributedOne(p, r, HeadGcsAddress(config));
    SameAsItself(r, HeadGcsAddress(config));
  }

  lemma SameAsItself(r: Resolver, address: string)
    ensures SameAddress(r, address, address)
  {
  }

  lemma AttributedOne(p: Proc, r: Resolver, target: string)
    ensures Attributed(p, r, [target])
            <==> ExtractAddress(p.cmdline).Some? && SameAddress(r, ExtractAddress(p.cmdline).value, target)
  {
    hide ExtractAddress; hide SameAddress;
    assert [target][0] == target;
  }

  lemma TwoAddresses()
    ensures 0x0A00_0001 < ADDRESS_SPACE && 0x0A00_0001 != LOOPBACK && 0x7FC8_0001 < ADDRESS_SPACE
            && 0x7FC8_0001 != LOOPBACK
    ensures Dotted(0x0A00_0001) == "10.0.0.1" && Dotted(0x7FC8_0001) == "127.200.0.1"
  {
    assert 0x7FC8_0001 < ADDRESS_SPACE && 0x7FC8_0001 != LOOPBACK && 0x0A00_0001 != LOOPBACK;
    Tailnet.DefaultHeadAddress();
    hide *;
    TenText();
  }

  lemma TenText()
    ensures Dotted(0x0A00_0001) == "10.0.0.1"
  {
    assert Decimal(10) == Decimal(1) + "0" && Decimal(0) == "0" && Decimal(1) == "1";
    assert 0x0A00_0001 / 0x100_0000 == 10 && 0x0A00_0001 / 0x1_0000 % 0x100 == 0;
    assert 0x0A00_0001 / 0x100 % 0x100 == 0 && 0x0A00_0001 % 0x100 == 1;
    hide Decimal;
  }

  /** Two dotted addresses resolve alike only if they are one. */
  lemma DottedHeadMisses(config: Config, r: Resolver, alloc: Tailnet.Alloc, p: Proc, a: nat, b: nat)
    requires Proper(r) && config.tailnet.Some? && config.headIp !in config.tailnetIps
    requires config.tailnet.value.gcsPort == config.headGcsPort
    requires a < ADDRESS_SPACE && b < ADDRESS_SPACE && a != LOOPBACK && b != LOOPBACK
    requires config.headIp == Dotted(a) && config.tailnet.value.headAdvertiseIp == Dotted(b)
    requires ExtractAddress(p.cmdline) == Some(Filled(config, AccessOf(config, None, Some(alloc))))
    ensures Attributed(p, r, [GcsAddressForNode(config, config.headIp, None)]) <==> a == b
  {
    hide *;
    Tunnels.DottedWellFormed(a, config.headGcsPort);
    Tunnels.DottedWellFormed(b, config.headGcsPort);
    NormalizeDotted(r, a);
    NormalizeDotted(r, b);
    DottedNoColon(a);
    DottedNoColon(b);
    ColocatedMissed(config, r, alloc, p);
    if Dotted(a) == Dotted(b) { DottedInjective(a, b); }
  }

  /** A head at 10.0.0.1 with the default advertised address 127.200.0.1: whatever the resolver, teardown does not
      attribute a process of the colocated worker to the cluster. */
  lemma DefaultHeadMissesColocated(r: Resolver, tailnetIp: string, commands: seq<seq<string>>, alloc: Tailnet.Alloc,
                                   p: Proc)
    requires Proper(r)
    requires var config := Config("10.0.0.1", 6379, Some(Tailnet.DefaultConfig(tailnetIp)), {}, commands);
             ExtractAddress(p.cmdline) == Some(Filled(config, AccessOf(config, None, Some(alloc))))
    ensures var config := Config("10.0.0.1", 6379, Some(Tailnet.DefaultConfig(tailnetIp)), {}, commands);
            !Attributed(p, r, [GcsAddressForNode(config, config.headIp, None)])
  {
    hide *;
    var config := Config("10.0.0.1", 6379, Some(Tailnet.DefaultConfig(tailnetIp)), {}, commands);
    DefaultHead(tailnetIp);
    TwoAddresses();
    DottedHeadMisses(config, r, alloc, p, 0x0A00_0001, 0x7FC8_0001);
  }

  lemma DefaultHead(tailnetIp: string)
    ensures Tailnet.DefaultConfig(tailnetIp).headAdvertiseIp == "127.200.0.1"
            && Tailnet.DefaultConfig(tailnetIp).gcsPort == 6379
  {
  }

  lemma DottedNoColon(n: nat)
    requires n < ADDRESS_SPACE
    ensures HasNo(Dotted(n), ':')
  {
    DottedChars(n);
    hide Dotted;
  }
}
