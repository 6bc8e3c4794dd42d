/** GCS addresses as text: printing, parsing, normalising and comparing them. */
module Addresses {

  import opened Results
  import opened Text

  // ---------------------------------------------------------------- str.strip and friends

  predicate IsSpace(c: char) {
    var u := c as int;
    || 9 <= u <= 13 || 28 <= u <= 32 || u == 0x85 || u == 0xA0 || u == 0x1680 || 0x2000 <= u <= 0x200A
    || u == 0x2028 || u == 0x2029 || u == 0x202F || u == 0x205F || u == 0x3000
  }

  function LStrip(s: string): string {
    if s != [] && IsSpace(s[0]) then LStrip(s[1..]) else s
  }

  function RStrip(s: string): string {
    if s != [] && IsSpace(s[|s| - 1]) then RStrip(s[..|s| - 1]) else s
  }

  function Strip(s: string): string {
    RStrip(LStrip(s))
  }

  predicate NoEdgeSpace(s: string) {
    s == [] || (!IsSpace(s[0]) && !IsSpace(s[|s| - 1]))
  }

  function Count(s: string, c: char): nat {
    if s == [] then 0 else (if s[0] == c then 1 else 0) + Count(s[1..], c)
  }

  lemma {:induction false} LStripSuffix(s: string) returns (d: nat)
    ensures d <= |s| && LStrip(s) == s[d..] && (forall i | 0 <= i < d :: IsSpace(s[i]))
    ensures d < |s| ==> !IsSpace(s[d])
    ensures d == 0 <==> s == [] || !IsSpace(s[0])
  {
    if s != [] && IsSpace(s[0]) {
      d := LStripSuffix(s[1..]);
      d := d + 1;
      assert s[1..][d - 1..] == s[d..];
    } else {
      d := 0;
    }
  }

  lemma {:induction false} RStripPrefix(s: string) returns (d: nat)
    ensures d <= |s| && RStrip(s) == s[..d] && (forall i | d <= i < |s| :: IsSpace(s[i]))
    ensures d > 0 ==> !IsSpace(s[d - 1])
  {
    if s != [] && IsSpace(s[|s| - 1]) {
      d := RStripPrefix(s[..|s| - 1]);
      assert s[..|s| - 1][..d] == s[..d];
    } else {
      d := |s|;
    }
  }

  /** Stripping keeps exactly the text between the outermost non-space characters. */
  lemma StripWindow(s: string) returns (d: nat, e: nat)
    ensures d <= e <= |s| && Strip(s) == s[d..e] && NoEdgeSpace(Strip(s))
    ensures (forall i | 0 <= i < d :: IsSpace(s[i])) && (forall i | e <= i < |s| :: IsSpace(s[i]))
    ensures s != [] && !IsSpace(s[0]) ==> d == 0
  {
    d := LStripSuffix(s);
    var k := RStripPrefix(s[d..]);
    e := d + k;
    assert s[d..][..k] == s[d..e];
    forall i | e <= i < |s| ensures IsSpace(s[i]) { assert s[d..][i - d] == s[i]; }
    if k > 0 { assert s[d..][k - 1] == s[e - 1]; }
  }

  lemma StripNothing(s: string)
    requires NoEdgeSpace(s)
    ensures Strip(s) == s
  {
    var d, e := StripWindow(s);
    if s != [] { assert !IsSpace(s[|s| - 1]); }
  }

  lemma {:induction false} CountOne(s: string, c: char)
    ensures Count(s, c) == 0 <==> HasNo(s, c)
    ensures Count(s, c) == 1 <==> Find(s, c) < |s| && HasNo(s[Find(s, c) + 1..], c)
  {
    if s != [] {
      CountOne(s[1..], c);
      assert HasNo(s, c) <==> s[0] != c && HasNo(s[1..], c) by {
        assert forall i | 0 <= i < |s| - 1 :: s[1..][i] == s[i + 1];
        if s[0] != c && HasNo(s[1..], c) {
          forall i | 0 <= i < |s| ensures s[i] != c { if i > 0 { assert s[1..][i - 1] != c; } }
        }
      }
      if s[0] != c && Find(s, c) < |s| { assert s[1..][Find(s[1..], c) + 1..] == s[Find(s, c) + 1..]; }
    }
  }

  // ---------------------------------------------------------------- printing and parsing

  predicate Bracketed(host: string) {
    !HasNo(host, ':') && host[0] != '['
  }

  /** Join host and port, bracketing IPv6 literals. */
  function BuildAddress(host: string, port: string): string {
    if Bracketed(host) then "[" + host + "]" + ":" + port else host + ":" + port
  }

  datatype HostPort = HostPort(host: string, port: Option<string>)

  function SplitStripped(t: string): HostPort {
    var e := Find(t, ']');
    if t != "" && t[0] == '[' && e < |t| then
      var rest := t[e + 1..];
      HostPort(t[1..e], if rest != "" && rest[0] == ':' then Some(rest[1..]) else None)
    else if Count(t, ':') == 1 then
      var i := Find(t, ':');
      CountOne(t, ':');
      HostPort(t[..i], Some(t[i + 1..]))
    else HostPort(t, None)
  }

  function SplitHostPort(address: string): HostPort {
    SplitStripped(Strip(address))
  }

  /** What a caller can check of a host and a port before printing them. */
  predicate Recoverable(host: string, port: string) {
    && (port == "" || !IsSpace(port[|port| - 1]))
    && if Bracketed(host) then HasNo(host, ']')
       else
         && HasNo(host, ':') && HasNo(port, ':')
         && (host == "" || !IsSpace(host[0]))
         && (host != "" && host[0] == '[' ==> HasNo(host, ']') && HasNo(port, ']'))
  }

  lemma BuiltEdges(host: string, port: string)
    requires Recoverable(host, port)
    ensures NoEdgeSpace(BuildAddress(host, port))
  {
    var s := BuildAddress(host, port);
    if port != "" { assert s[|s| - 1] == port[|port| - 1]; } else { assert s[|s| - 1] == ':'; }
    if !Bracketed(host) && host != "" { assert s[0] == host[0]; }
  }

  lemma BracketedParts(host: string, port: string)
    requires HasNo(host, ']')
    ensures var t := "[" + host + "]" + ":" + port;
            && Find(t, ']') == |host| + 1 && |t| == |host| + 3 + |port|
            && t[0] == '[' && t[1..|host| + 1] == host && t[|host| + 2] == ':' && t[|host| + 2..] == ":" + port
  {
    var t := "[" + host + "]" + ":" + port;
    assert HasNo("[" + host, ']');
    FindAfter("[" + host, ":" + port, ']');
    hide *;
    assert t == ("[" + host) + [']'] + (":" + port);
  }

  lemma ParseBracketed(host: string, port: string)
    requires HasNo(host, ']')
    ensures SplitStripped("[" + host + "]" + ":" + port) == HostPort(host, Some(port))
  {
    var t := "[" + host + "]" + ":" + port;
    BracketedParts(host, port);
    hide Find; hide Count; hide HasNo;
    assert t[|host| + 2..][1..] == port;
  }

  lemma ParsePlain(host: string, port: string)
    requires HasNo(host, ':') && HasNo(port, ':')
    requires host != "" && host[0] == '[' ==> HasNo(host, ']') && HasNo(port, ']')
    ensures SplitStripped(host + ":" + port) == HostPort(host, Some(port))
  {
    hide *;
    var t := host + ":" + port;
    PlainParts(host, port);
    OneColon(host, port);
    NoneInWhole(host, port, ']');
    PlainEnds(host, port);
    FoundIff(t, ']');
    SplitOneColon(t);
  }

  lemma SplitOneColon(t: string)
    requires Count(t, ':') == 1 && (t != "" && t[0] == '[' ==> Find(t, ']') == |t|)
    ensures var i := Find(t, ':'); i < |t| && SplitStripped(t) == HostPort(t[..i], Some(t[i + 1..]))
  {
    CountOne(t, ':');
    hide Count; hide Find;
  }

  lemma PlainParts(host: string, port: string)
    requires HasNo(host, ':')
    ensures var t := host + ":" + port;
            Find(t, ':') == |host| && |host| < |t| && t[..|host|] == host && t[|host| + 1..] == port
  {
    FindAfter(host, port, ':');
    hide *;
  }

  lemma NoneInWhole(host: string, port: string, c: char)
    ensures HasNo(host, c) && HasNo(port, c) && c != ':' ==> HasNo(host + ":" + port, c)
  {
  }

  lemma FoundIff(s: string, c: char)
    ensures Find(s, c) < |s| <==> !HasNo(s, c)
  {
  }

  lemma ParseRecovers(host: string, port: string)
    requires Recoverable(host, port)
    ensures SplitHostPort(BuildAddress(host, port)) == HostPort(host, Some(port))
  {
    BuiltEdges(host, port);
    StripNothing(BuildAddress(host, port));
    if Bracketed(host) { ParseBracketed(host, port); } else { ParsePlain(host, port); }
  }

  /** A parsed port is the tail of the text, and the host is bracketed or runs up to the only colon. */
  lemma ParsedShape(t: string, host: string, port: string)
    requires SplitStripped(t) == HostPort(host, Some(port))
    ensures |port| <= |t| && port == t[|t| - |port|..]
    ensures if t[0] == '[' && !HasNo(t, ']')
            then |host| + 1 < |t| && host == t[1..|host| + 1] && HasNo(host, ']')
            else |host| < |t| && host == t[..|host|] && HasNo(host, ':') && HasNo(port, ':')
                 && |host| + 1 + |port| == |t| && t[|host|] == ':'
  {
    var e := Find(t, ']');
    CountOne(t, ':');
    assert e < |t| <==> !HasNo(t, ']');
    if t != "" && t[0] == '[' && e < |t| {
      assert forall i | 0 <= i < |host| :: host[i] == t[i + 1];
    } else {
      var i := Find(t, ':');
      assert host == t[..i] && port == t[i + 1..];
    }
  }

  lemma OnlyBrackets(t: string, k: nat)
    requires k < |t| && t != "" && t[0] == '[' && forall i | 0 <= i < k :: t[i] == t[i + 1]
    ensures t[k] == '['
  {
    if k > 0 { OnlyBrackets(t, k - 1); }
  }

  lemma RecoveredPort(host: string, port: string)
    requires SplitHostPort(BuildAddress(host, port)) == HostPort(host, Some(port))
    ensures port == "" || !IsSpace(port[|port| - 1])
  {
    PortIsTidy(BuildAddress(host, port));
    hide SplitHostPort; hide BuildAddress;
  }

  lemma RecoveredBracketed(host: string, port: string)
    requires Bracketed(host) && SplitHostPort(BuildAddress(host, port)) == HostPort(host, Some(port))
    ensures HasNo(host, ']')
  {
    var s := BuildAddress(host, port);
    var d, e := StripWindow(s);
    assert s[0] == '[' && !IsSpace(s[0]);
    ParsedShape(s[d..e], host, port);
  }

  lemma NoCharInWindow(s: string, d: nat, e: nat, c: char)
    requires d <= e <= |s| && HasNo(s[d..e], c) && !IsSpace(c)
    requires (forall i | 0 <= i < d :: IsSpace(s[i])) && (forall i | e <= i < |s| :: IsSpace(s[i]))
    ensures HasNo(s, c)
  {
    forall i | 0 <= i < |s| ensures s[i] != c { if d <= i < e { assert s[d..e][i - d] != c; } }
  }

  lemma ShiftedBrackets(t: string, host: string)
    requires host != "" && |host| < |t| && host == t[..|host|] && host[0] == '['
    ensures |host| + 1 < |t| && host == t[1..|host| + 1] ==> t[|host|] == '['
  {
    if |host| + 1 < |t| && host == t[1..|host| + 1] {
      forall i | 0 <= i < |host| ensures t[i] == t[i + 1] { assert host[i] == t[i + 1]; }
      OnlyBrackets(t, |host|);
    }
  }

  lemma NoneInParts(host: string, port: string, c: char)
    requires HasNo(host + ":" + port, c)
    ensures HasNo(host, c) && HasNo(port, c)
  {
    var s := host + ":" + port;
    assert forall i | 0 <= i < |host| :: host[i] == s[i];
    assert forall i | 0 <= i < |port| :: port[i] == s[|host| + 1 + i];
  }

  lemma RecoveredOpenBracket(host: string, port: string)
    requires host != "" && host[0] == '[' && SplitHostPort(BuildAddress(host, port)) == HostPort(host, Some(port))
    ensures HasNo(host, ':') && HasNo(port, ':') && HasNo(host, ']') && HasNo(port, ']')
  {
    OpenPrint(host, port);
    hide *;
    var s := host + ":" + port;
    var d, e := WindowOf(s);
    SplitIs(s);
    ShapeOf(s[d..e], host, port);
    OpenInWindow(host, port, d, e);
    NoCharInWindow(s, d, e, ']') by { BracketIsNoSpace(); WindowIs(s, d, e); }
    NoneInParts(host, port, ']');
  }

  lemma OpenPrint(host: string, port: string)
    requires host != "" && host[0] == '['
    ensures BuildAddress(host, port) == host + ":" + port
  {
  }

  lemma BracketIsNoSpace()
    ensures !IsSpace(']') && !IsSpace('[')
  {
  }

  lemma WindowIs(s: string, d: nat, e: nat)
    requires Window(s, d, e)
    ensures d <= e <= |s| && (forall i | 0 <= i < d :: IsSpace(s[i])) && (forall i | e <= i < |s| :: IsSpace(s[i]))
  {
  }

  lemma OpenInWindow(host: string, port: string, d: nat, e: nat)
    requires host != "" && host[0] == '['
    requires var s := host + ":" + port; Window(s, d, e) && Shape(s[d..e], host, port)
    ensures HasNo(host, ':') && HasNo(port, ':') && HasNo((host + ":" + port)[d..e], ']')
  {
    var s := host + ":" + port;
    PlainEnds(host, port);
    ColonInWindow(s, d, e, |host|);
    hide HasNo;
    assert s[0] == '[' && d == 0;
    var t := s[d..e];
    assert t[0] == '[' && t[|host|] == ':' && t[..|host|] == host;
    ShiftedBrackets(t, host);
  }

  lemma ColonInside(host: string, t: string, k: int)
    requires 0 <= k < |t| && t[k] == ':'
    ensures 1 <= k <= |host| < |t| && host == t[1..|host| + 1] ==> !HasNo(host, ':')
  {
    if 1 <= k <= |host| < |t| && host == t[1..|host| + 1] { assert host[k - 1] == t[k]; }
  }

  /** The window stripping leaves of a text. */
  ghost predicate Window(s: string, d: nat, e: nat) {
    && d <= e <= |s| && (s[d..e] == "" || !IsSpace(s[d]))
    && (forall i | 0 <= i < d :: IsSpace(s[i])) && (forall i | e <= i < |s| :: IsSpace(s[i]))
  }

  lemma WindowOf(s: string) returns (d: nat, e: nat)
    ensures Window(s, d, e) && Strip(s) == s[d..e]
  {
    d, e := StripWindow(s);
    hide Strip;
    if d < e { assert s[d..e][0] == s[d]; }
  }

  /** How host and port lie in a text they were parsed from. */
  ghost predicate Shape(t: string, host: string, port: string) {
    && t != ""
    && if t[0] == '[' && !HasNo(t, ']') then |host| + 1 < |t| && host == t[1..|host| + 1]
       else |host| < |t| && host == t[..|host|] && HasNo(host, ':') && HasNo(port, ':')
  }

  lemma ShapeOf(t: string, host: string, port: string)
    requires SplitStripped(t) == HostPort(host, Some(port))
    ensures Shape(t, host, port)
  {
    ParsedShape(t, host, port);
    hide SplitStripped; hide HasNo;
  }

  lemma RecoveredPlain(host: string, port: string)
    requires HasNo(host, ':') && (host == "" || host[0] != '[')
    requires SplitHostPort(BuildAddress(host, port)) == HostPort(host, Some(port))
    ensures HasNo(port, ':') && (host == "" || !IsSpace(host[0]))
  {
    PlainPrint(host, port);
    hide *;
    var s := host + ":" + port;
    var d, e := WindowOf(s);
    SplitIs(s);
    ShapeOf(s[d..e], host, port);
    PlainInWindow(host, port, d, e);
  }

  lemma PlainPrint(host: string, port: string)
    requires HasNo(host, ':')
    ensures BuildAddress(host, port) == host + ":" + port
  {
    hide HasNo;
  }

  lemma SplitIs(s: string)
    ensures SplitHostPort(s) == SplitStripped(Strip(s))
  {
    hide SplitStripped; hide Strip;
  }

  lemma PlainEnds(host: string, port: string)
    ensures var s := host + ":" + port; s[|host|] == ':' && s != "" && (s[0] == if host == "" then ':' else host[0])
  {
  }

  lemma PlainInWindow(host: string, port: string, d: nat, e: nat)
    requires HasNo(host, ':') && (host == "" || host[0] != '[')
    requires var s := host + ":" + port; Window(s, d, e) && Shape(s[d..e], host, port)
    ensures HasNo(port, ':') && (host == "" || !IsSpace(host[0]))
  {
    hide HasNo;
    var s := host + ":" + port;
    var t := s[d..e];
    PlainEnds(host, port);
    ColonInWindow(s, d, e, |host|);
    assert t[|host| - d] == ':' && t[0] == s[d];
    ColonInside(host, t, |host| - d);
    assert host != "" ==> host[0] == s[0] == t[0];
  }

  lemma ColonInWindow(s: string, d: nat, e: nat, k: nat)
    requires Window(s, d, e) && k < |s| && s[k] == ':'
    ensures d <= k < e
  {
  }

  /** Exactly when a printed address is parsed back into its host and port, for every host and port. */
  lemma RoundTrip(host: string, port: string)
    ensures SplitHostPort(BuildAddress(host, port)) == HostPort(host, Some(port)) <==> Recoverable(host, port)
  {
    if Recoverable(host, port) {
      ParseRecovers(host, port);
    } else if SplitHostPort(BuildAddress(host, port)) == HostPort(host, Some(port)) {
      RecoveredPort(host, port);
      if Bracketed(host) { RecoveredBracketed(host, port); }
      else if host != "" && host[0] == '[' { RecoveredOpenBracket(host, port); }
      else { RecoveredPlain(host, port); }
    }
  }

  // ---------------------------------------------------------------- normalising and comparing

  function LowerChar(c: char): char {
    if 'A' <= c <= 'Z' then (c as int + 32) as char else c
  }

  function Lower(s: string): string {
    seq(|s|, i requires 0 <= i < |s| => LowerChar(s[i]))
  }

  /** The machine's own primary IP, inet_aton, and name resolution. */
  datatype Resolver = Resolver(nodeIp: string, isIpv4: string -> bool, lookup: string -> Option<string>)

  predicate IsLocalhost(host: string) {
    Lower(Strip(host)) in ["localhost", "127.0.0.1", "::1"]
  }

  function NormalizeHost(r: Resolver, host: string): string {
    var h := Lower(Strip(host));
    if IsLocalhost(h) then r.nodeIp
    else if r.isIpv4(h) then h
    else match r.lookup(h) case Some(ip) => ip case None => h
  }

  function PortText(port: Option<string>): string {
    match port case Some(p) => p case None => "None"
  }

  function Normalize(r: Resolver, address: string): string {
    var a := SplitHostPort(address);
    BuildAddress(NormalizeHost(r, a.host), PortText(a.port))
  }

  predicate SameAddress(r: Resolver, a: string, b: string) {
    Normalize(r, a) == Normalize(r, b)
  }

  /** What a host says once blanks around it are dropped and capital letters made small. */
  ghost predicate Reads(host: string, text: string) {
    exists d: nat, e: nat :: ReadsAt(host, text, d, e)
  }

  ghost predicate ReadsAt(host: string, text: string, d: nat, e: nat) {
    && d <= e <= |host| && |text| == e - d
    && (forall i | 0 <= i < d :: IsSpace(host[i])) && (forall i | e <= i < |host| :: IsSpace(host[i]))
    && (d < e ==> !IsSpace(host[d]) && !IsSpace(host[e - 1]))
    && forall i | d <= i < e ::
         text[i - d] == if 'A' <= host[i] <= 'Z' then (host[i] as int - 'A' as int + 'a' as int) as char else host[i]
  }

  lemma StripIs(host: string, d: nat, e: nat)
    requires d <= e <= |host|
    requires (forall i | 0 <= i < d :: IsSpace(host[i])) && (forall i | e <= i < |host| :: IsSpace(host[i]))
    requires d < e ==> !IsSpace(host[d]) && !IsSpace(host[e - 1])
    ensures Strip(host) == host[d..e]
  {
    var k, m := StripWindow(host);
    hide Strip; hide IsSpace;
    var s := host[k..m];
    if k < m {
      assert s[0] == host[k] && s[|s| - 1] == host[m - 1];
      assert d <= k && m <= e;
    }
    if d < e { assert k <= d && e <= m; }
  }

  /** Whatever a host reads as decides what it stands for: the machine's own address, itself, or what is looked up. */
  lemma HostMeans(r: Resolver, host: string, text: string)
    requires Reads(host, text)
    ensures var mine := text == "localhost" || text == "127.0.0.1" || text == "::1";
            && (mine ==> NormalizeHost(r, host) == r.nodeIp)
            && (!mine && r.isIpv4(text) ==> NormalizeHost(r, host) == text)
            && (!mine && !r.isIpv4(text) ==>
                  NormalizeHost(r, host) == match r.lookup(text) case Some(ip) => ip case None => text)
  {
    var d: nat, e: nat :| ReadsAt(host, text, d, e);
    hide *;
    ReadsCore(host, text, d, e);
    SmallStays(host[d..e]);
    HostCases(r, host);
    LocalNames(text);
  }

  lemma ReadsCore(host: string, text: string, d: nat, e: nat)
    requires ReadsAt(host, text, d, e)
    ensures d <= e <= |host| && Strip(host) == host[d..e] && NoEdgeSpace(host[d..e]) && Lower(host[d..e]) == text
  {
    StripIs(host, d, e);
    hide Strip; hide IsSpace;
    var core := host[d..e];
    assert forall i | 0 <= i < |core| :: core[i] == host[d + i];
    forall i | 0 <= i < |core| ensures text[i] == LowerChar(core[i]) { assert text[d + i - d] == text[i]; }
    assert Lower(core) == text;
  }

  lemma HostCases(r: Resolver, host: string)
    ensures var h := Lower(Strip(host));
            NormalizeHost(r, host)
            == if Lower(Strip(h)) in ["localhost", "127.0.0.1", "::1"] then r.nodeIp
               else if r.isIpv4(h) then h
               else match r.lookup(h) case Some(ip) => ip case None => h
  {
    hide Strip; hide Lower;
  }

  lemma LocalNames(text: string)
    ensures text in ["localhost", "127.0.0.1", "::1"] <==> text == "localhost" || text == "127.0.0.1" || text == "::1"
  {
    var names := ["localhost", "127.0.0.1", "::1"];
    assert names[0] in names && names[1] in names && names[2] in names;
  }

  lemma SmallStays(core: string)
    requires NoEdgeSpace(core)
    ensures Lower(Strip(Lower(core))) == Lower(core)
  {
    var low := Lower(core);
    assert NoEdgeSpace(low);
    StripNothing(low);
    hide Strip;
    assert Lower(low) == low;
  }

  ghost predicate IsDotted(ip: string) {
    exists n: nat | n < ADDRESS_SPACE :: ip == Dotted(n)
  }

  /** What the operating system guarantees: dotted quads are recognised, and its answers are dotted quads. */
  ghost predicate Proper(r: Resolver) {
    && (forall ip | IsDotted(ip) :: r.isIpv4(ip))
    && IsDotted(r.nodeIp)
    && (forall h | r.lookup(h).Some? :: IsDotted(r.lookup(h).value))
  }

  /** A host (name, IPv4 or IPv6 literal, no brackets) and a port that print to something parseable. */
  predicate WellFormed(host: string, port: string) {
    Recoverable(host, port) && HasNo(host, '[') && HasNo(host, ']') && HasNo(port, ':')
  }

  lemma PlainChars(ip: string)
    requires ip != "" && forall i | 0 <= i < |ip| :: IsDigit(ip[i]) || ip[i] == '.'
    ensures Lower(Strip(ip)) == ip && HasNo(ip, ':') && HasNo(ip, '[') && HasNo(ip, ']') && NoEdgeSpace(ip)
  {
    StripNothing(ip);
  }

  lemma DottedIsNormal(ip: string)
    requires IsDotted(ip)
    ensures Lower(Strip(ip)) == ip && HasNo(ip, ':') && HasNo(ip, '[') && HasNo(ip, ']') && NoEdgeSpace(ip) && ip != ""
  {
    var n: nat :| n < ADDRESS_SPACE && ip == Dotted(n);
    DottedChars(n);
    hide Dotted; hide Decimal; hide Strip; hide Lower;
    PlainChars(ip);
  }

  lemma LoweredClean(host: string, c: char)
    requires HasNo(host, c) && LowerChar(c) == c && !('a' <= c <= 'z')
    ensures HasNo(Lower(Strip(host)), c)
  {
    var d, e := StripWindow(host);
    forall i | 0 <= i < e - d ensures Lower(Strip(host))[i] != c { assert Strip(host)[i] == host[d + i]; }
  }

  lemma LoweredEdge(host: string)
    ensures var h := Lower(Strip(host)); h != "" ==> !IsSpace(h[0])
  {
    var d, e := StripWindow(host);
  }

  /** Normalising keeps a well-formed address well-formed. */
  lemma NormalizedWellFormed(r: Resolver, host: string, port: string)
    requires Proper(r) && WellFormed(host, port)
    ensures WellFormed(NormalizeHost(r, host), port)
  {
    var n := NormalizeHost(r, host);
    if n == Lower(Strip(host)) {
      LoweredClean(host, '[');
      LoweredClean(host, ']');
      LoweredEdge(host);
      assert n != "" ==> n[0] != '[';
    } else {
      DottedIsNormal(n);
    }
  }

  lemma NormalizeBuilt(r: Resolver, host: string, port: string)
    requires WellFormed(host, port)
    ensures Normalize(r, BuildAddress(host, port)) == BuildAddress(NormalizeHost(r, host), port)
  {
    ParseRecovers(host, port);
  }

  lemma BuildInjective(h1: string, p1: string, h2: string, p2: string)
    requires Recoverable(h1, p1) && Recoverable(h2, p2) && BuildAddress(h1, p1) == BuildAddress(h2, p2)
    ensures h1 == h2 && p1 == p2
  {
    ParseRecovers(h1, p1);
    ParseRecovers(h2, p2);
  }

  /** Two well-formed addresses compare equal exactly when their hosts resolve alike and their ports
      are the same text. */
  lemma SameIffHostsAndPorts(r: Resolver, h1: string, p1: string, h2: string, p2: string)
    requires Proper(r) && WellFormed(h1, p1) && WellFormed(h2, p2)
    ensures SameAddress(r, BuildAddress(h1, p1), BuildAddress(h2, p2))
            <==> NormalizeHost(r, h1) == NormalizeHost(r, h2) && p1 == p2
  {
    NormalizeBuilt(r, h1, p1);
    NormalizeBuilt(r, h2, p2);
    NormalizedWellFormed(r, h1, p1);
    NormalizedWellFormed(r, h2, p2);
    WellFormedRecovers(NormalizeHost(r, h1), p1);
    WellFormedRecovers(NormalizeHost(r, h2), p2);
    hide NormalizeHost; hide Normalize; hide BuildAddress; hide Recoverable; hide WellFormed;
    if SameAddress(r, BuildAddress(h1, p1), BuildAddress(h2, p2)) {
      BuildInjective(NormalizeHost(r, h1), p1, NormalizeHost(r, h2), p2);
    }
  }

  /** A concrete address other than 127.0.0.1 stands for itself, tunnel loopbacks included. */
  lemma NormalizeDotted(r: Resolver, n: nat)
    requires Proper(r) && n < ADDRESS_SPACE && n != LOOPBACK
    ensures NormalizeHost(r, Dotted(n)) == Dotted(n)
  {
    DottedIsNormal(Dotted(n));
    DottedChars(n);
    LoopbackText();
    if Dotted(n) == "127.0.0.1" { DottedInjective(n, LOOPBACK); }
    assert Dotted(n) != "localhost" by { assert "localhost"[0] == 'l'; }
    assert Dotted(n) != "::1" by { assert "::1"[0] == ':'; }
  }

  lemma NormalizeLoopback(r: Resolver)
    ensures NormalizeHost(r, "127.0.0.1") == r.nodeIp
  {
    LoopbackText();
    DottedIsNormal(Dotted(LOOPBACK));
  }

  lemma LowerTwice(host: string)
    ensures var h := Lower(Strip(host)); Lower(Strip(h)) == h
  {
    var h := Lower(Strip(host));
    var d, e := StripWindow(host);
    assert NoEdgeSpace(h);
    StripNothing(h);
  }

  lemma HostTwice(r: Resolver, host: string)
    requires Proper(r)
    ensures var n := NormalizeHost(r, host);
            NormalizeHost(r, n) == n <==> (n == "127.0.0.1" ==> r.nodeIp == "127.0.0.1")
  {
    var n := NormalizeHost(r, host);
    NormalizeLoopback(r);
    if n != "127.0.0.1" {
      if IsDotted(n) { DottedTwice(r, n); } else { NameTwice(r, host); }
    }
    hide NormalizeHost; hide IsDotted; hide Proper;
  }

  lemma DottedTwice(r: Resolver, ip: string)
    requires Proper(r) && IsDotted(ip) && ip != "127.0.0.1"
    ensures NormalizeHost(r, ip) == ip
  {
    var k: nat :| k < ADDRESS_SPACE && ip == Dotted(k);
    LoopbackText();
    NormalizeDotted(r, k);
    hide NormalizeHost; hide Dotted;
  }

  lemma NameTwice(r: Resolver, host: string)
    requires Proper(r) && !IsDotted(NormalizeHost(r, host))
    ensures var n := NormalizeHost(r, host); NormalizeHost(r, n) == n
  {
    LowerTwice(host);
    hide Strip; hide Lower; hide IsDotted;
  }

  // ---------------------------------------------------------------- which texts settle

  /** A resolved host is an address, or its own text stripped and lowered. */
  lemma HostIs(r: Resolver, host: string)
    requires Proper(r)
    ensures var n := NormalizeHost(r, host);
            && (IsDotted(n) || n == Lower(Strip(host)))
            && (n != "" ==> !IsSpace(n[0]))
            && (IsDotted(n) ==> n != "" && n[0] != '[' && HasNo(n, ':') && HasNo(n, ']'))
            && (!IsDotted(n) ==> |n| <= |host|)
            && (HasNo(host, ']') ==> HasNo(n, ']'))
  {
    var n := NormalizeHost(r, host);
    if IsDotted(n) {
      DottedIsNormal(n);
    } else {
      LoweredEdge(host);
      if HasNo(host, ']') { LoweredClean(host, ']'); }
      var d, e := StripWindow(host);
    }
  }

  predicate Tidy(port: string) {
    port == "" || !IsSpace(port[|port| - 1])
  }

  lemma TailIsTidy(t: string, port: string)
    requires NoEdgeSpace(t) && |port| <= |t| && port == t[|t| - |port|..]
    ensures Tidy(port)
  {
    if port != "" { assert port[|port| - 1] == t[|t| - 1]; }
  }

  lemma PortIsTidy(t: string)
    ensures Tidy(PortText(SplitHostPort(t).port))
  {
    var d, e := StripWindow(t);
    var a := SplitHostPort(t);
    assert SplitStripped(Strip(t)) == a;
    hide *;
    if a.port.Some? {
      assert a == HostPort(a.host, Some(a.port.value));
      ParsedShape(Strip(t), a.host, a.port.value);
      TailIsTidy(Strip(t), a.port.value);
    }
    PortTextTidy(a.port);
  }

  lemma PortTextTidy(port: Option<string>)
    requires port.Some? ==> Tidy(port.value)
    ensures Tidy(PortText(port))
  {
  }

  /** What the code prints has no space at its edges. */
  lemma PrintedEdges(host: string, port: string)
    requires Tidy(port) && (host != "" ==> !IsSpace(host[0]))
    ensures NoEdgeSpace(BuildAddress(host, port)) && Strip(BuildAddress(host, port)) == BuildAddress(host, port)
  {
    var s := BuildAddress(host, port);
    if port != "" { assert s[|s| - 1] == port[|port| - 1]; } else { assert s[|s| - 1] == ':'; }
    if !Bracketed(host) && host != "" { assert s[0] == host[0]; }
    StripNothing(s);
  }

  /** The code's printed form of a text: what it parses to, resolved. */
  lemma NormalizeIs(r: Resolver, t: string)
    requires Proper(r)
    ensures var a := SplitHostPort(t);
            var n, p := NormalizeHost(r, a.host), PortText(a.port);
            && Normalize(r, t) == BuildAddress(n, p) && Tidy(p) && (n != "" ==> !IsSpace(n[0]))
            && Strip(Normalize(r, t)) == Normalize(r, t)
  {
    var a := SplitHostPort(t);
    PortIsTidy(t);
    HostIs(r, a.host);
    hide NormalizeHost; hide BuildAddress; hide SplitHostPort; hide PortText; hide Strip; hide Tidy;
    PrintedEdges(NormalizeHost(r, a.host), PortText(a.port));
  }

  predicate BracketForm(t: string) {
    t != "" && t[0] == '[' && Find(t, ']') < |t|
  }

  lemma SplitBracket(t: string)
    requires BracketForm(t)
    ensures var a, e := SplitStripped(t), Find(t, ']');
            && 1 <= e && a.host == t[1..e] && HasNo(a.host, ']')
            && (a.port.Some? <==> e + 1 < |t| && t[e + 1] == ':') && (a.port.Some? ==> a.port.value == t[e + 2..])
  {
    var e := Find(t, ']');
    assert t[0] == '[' && t[e] == ']';
    hide Count; hide Find;
    var rest := t[e + 1..];
    assert rest != "" ==> rest[0] == t[e + 1] && rest[1..] == t[e + 2..];
    assert forall i | 0 <= i < e - 1 :: t[1..e][i] == t[i + 1];
  }

  lemma SplitColon(t: string)
    requires !BracketForm(t)
    ensures var a := SplitStripped(t);
            && (a.port.Some? <==> Count(t, ':') == 1)
            && (a.port.Some? ==> t == a.host + ":" + a.port.value && HasNo(a.host, ':') && HasNo(a.port.value, ':'))
            && (a.port.None? ==> a.host == t)
  {
    CountOne(t, ':');
    hide Count;
    var i := Find(t, ':');
    assert i < |t| ==> t == t[..i] + ":" + t[i + 1..];
  }

  lemma OneColon(host: string, port: string)
    requires HasNo(host, ':') && HasNo(port, ':')
    ensures Count(host + ":" + port, ':') == 1
  {
    FindAfter(host, port, ':');
    CountOne(host + ":" + port, ':');
    hide Count;
    assert (host + ":" + port)[|host| + 1..] == port;
  }

  /** What is printed in bracket form is a bracketed host, if the host was no longer than what stood in the brackets. */
  lemma PrintedBracketed(host: string, port: string, e: nat)
    requires var u := BuildAddress(host, port);
             && u[0] == '[' && e == Find(u, ']') < |u| && HasNo(host, ']')
             && (host != "" && host[0] == '[' ==> |host| < e)
             && (port == "None" || |port| == |u| - e - 2)
    ensures Bracketed(host) && e == |host| + 1 && BuildAddress(host, port)[1..e] == host
            && BuildAddress(host, port)[e + 1] == ':'
  {
    hide Find;
    assert HasNo("None", ']');
    PlainBracket(host, port, e);
    if Bracketed(host) { BracketedParts(host, port); }
  }

  lemma PlainBracket(host: string, port: string, e: nat)
    ensures var u := host + ":" + port;
            && (host != "" ==> u[0] == host[0]) && (host == "" ==> u[0] == ':')
            && (e < |u| && u[e] == ']' && HasNo(host, ']') ==> |host| < e && port[e - |host| - 1] == ']')
  {
    var u := host + ":" + port;
    if e < |u| && u[e] == ']' && HasNo(host, ']') {
      forall i | 0 <= i < |host| ensures u[i] != ']' { assert host[i] == u[i]; }
      assert u[|host|] == ':';
    }
  }

  /** A bracketed text that the code reprints as itself was read back as printed. */
  lemma FixedBracketed(r: Resolver, u: string)
    requires Proper(r) && Normalize(r, u) == u && Strip(u) == u && BracketForm(u)
    ensures var a := SplitHostPort(u); a.port.Some? && NormalizeHost(r, a.host) == a.host
  {
    var a, e := SplitHostPort(u), Find(u, ']');
    var h, q := NormalizeHost(r, a.host), PortText(a.port);
    SplitBracket(u);
    HostIs(r, a.host);
    hide SplitStripped; hide NormalizeHost; hide Strip; hide IsDotted; hide Find; hide BuildAddress; hide HasNo;
    PrintedBracketed(h, q, e);
  }

  lemma TwoColons(s: string, i: nat, j: nat)
    requires i < j < |s| && s[i] == ':' && s[j] == ':'
    ensures Count(s, ':') != 1
  {
    CountOne(s, ':');
    var f := Find(s, ':');
    hide Find; hide Count;
    assert f <= i;
    assert s[f + 1..][j - f - 1] == ':';
  }

  lemma PrintedColons(host: string, port: string)
    requires !HasNo(host, ':')
    ensures Count(BuildAddress(host, port), ':') != 1
  {
    var s := BuildAddress(host, port);
    var i :| 0 <= i < |host| && host[i] == ':';
    hide Count; hide HasNo;
    if Bracketed(host) { TwoColons(s, i + 1, |host| + 2); } else { TwoColons(s, i, |host|); }
  }

  /** A text with a single colon is printed from one pair only. */
  lemma OneReading(h: string, q: string, n: string, p: string)
    requires HasNo(h, ':') && HasNo(q, ':') && h + ":" + q == BuildAddress(n, p)
    ensures n == h && p == q
  {
    OneColon(h, q);
    if !HasNo(n, ':') { PrintedColons(n, p); }
    hide Count;
    assert n + ":" + p == h + ":" + q;
    SplitUnique(h, n, q, p, ':');
  }

  lemma FixedPlain(r: Resolver, u: string)
    requires Proper(r) && Normalize(r, u) == u && Strip(u) == u && !BracketForm(u)
    ensures var a := SplitHostPort(u); a.port.Some? && NormalizeHost(r, a.host) == a.host
  {
    var a := SplitHostPort(u);
    var h, q := NormalizeHost(r, a.host), PortText(a.port);
    SplitColon(u);
    HostIs(r, a.host);
    if a.port.Some? {
      hide *;
      OneReading(a.host, q, h, q);
    } else {
      assert IsDotted(h) || |h| == |u|;
      hide SplitStripped; hide NormalizeHost; hide Strip; hide IsDotted; hide BracketForm; hide Count; hide HasNo;
      NoPortAdded(h, u);
    }
  }

  lemma NoPortAdded(h: string, u: string)
    requires HasNo(h, ':') || |h| == |u|
    requires u == BuildAddress(h, "None")
    ensures Count(u, ':') == 1
  {
    if HasNo(h, ':') { OneColon(h, "None"); }
  }

  /** A text that stands for itself: printed from a host and a port that parse back, the host resolving to itself. */
  ghost predicate Canonical(r: Resolver, u: string) {
    exists host, port :: u == BuildAddress(host, port) && Recoverable(host, port) && NormalizeHost(r, host) == host
  }

  lemma FixedParses(r: Resolver, u: string)
    requires Proper(r) && Normalize(r, u) == u
    ensures var a := SplitHostPort(u);
            && a.port.Some? && NormalizeHost(r, a.host) == a.host
            && u == BuildAddress(a.host, a.port.value) && Recoverable(a.host, a.port.value)
  {
    NormalizeIs(r, u);
    var a := SplitHostPort(u);
    if BracketForm(u) { FixedBracketed(r, u); } else { FixedPlain(r, u); }
    hide SplitHostPort; hide NormalizeHost; hide BuildAddress; hide Recoverable; hide Strip;
    RoundTrip(a.host, a.port.value);
  }

  /** Normalising leaves a text alone exactly when it is canonical, for every text. */
  lemma SettledIff(r: Resolver, u: string)
    requires Proper(r)
    ensures Normalize(r, u) == u <==> Canonical(r, u)
  {
    if Normalize(r, u) == u { FixedParses(r, u); }
    hide NormalizeHost; hide BuildAddress; hide Recoverable; hide SplitHostPort;
    if Canonical(r, u) {
      var host, port :| u == BuildAddress(host, port) && Recoverable(host, port) && NormalizeHost(r, host) == host;
      ParseRecovers(host, port);
    }
  }

  /** The text opens with a bracketed host that has a colon, stands for itself and is followed by a port. */
  predicate OpensBracketed(r: Resolver, s: string) {
    var e := Find(s, ']');
    && s != "" && s[0] == '[' && e + 1 < |s| && s[e + 1] == ':'
    && Bracketed(s[1..e]) && NormalizeHost(r, s[1..e]) == s[1..e]
  }

  lemma OpensCanonical(r: Resolver, s: string)
    requires OpensBracketed(r, s) && Strip(s) == s && (s != "" ==> !IsSpace(s[|s| - 1]))
    ensures Canonical(r, s)
  {
    var e := Find(s, ']');
    var host, port := s[1..e], s[e + 2..];
    assert s == "[" + host + "]" + ":" + port;
    assert HasNo(host, ']') by { assert forall i | 0 <= i < |host| :: host[i] == s[i + 1]; }
    assert port != "" ==> port[|port| - 1] == s[|s| - 1];
    hide NormalizeHost; hide Strip; hide Find;
    assert Recoverable(host, port);
    assert s == BuildAddress(host, port);
  }

  lemma CanonicalOpens(r: Resolver, host: string, port: string)
    requires Bracketed(host) && Recoverable(host, port) && NormalizeHost(r, host) == host
    ensures OpensBracketed(r, BuildAddress(host, port))
  {
    var s := BuildAddress(host, port);
    BracketedParts(host, port);
    hide NormalizeHost; hide Find; hide HasNo;
  }

  lemma FindIs(s: string, c: char, k: nat)
    requires k < |s| && s[k] == c && forall i | 0 <= i < k :: s[i] != c
    ensures Find(s, c) == k
  {
  }

  lemma FindPrefix(a: string, b: string, c: char)
    ensures Find(a, c) < |a| ==> Find(a + b, c) == Find(a, c)
    ensures Find(a, c) == |a| && Find(b, c) < |b| ==> Find(a + b, c) == |a| + Find(b, c)
    ensures Find(a, c) == |a| && Find(b, c) == |b| ==> Find(a + b, c) == |a + b|
  {
    var s, k, j := a + b, Find(a, c), Find(b, c);
    if k < |a| {
      FindIs(s, c, k);
    } else if j < |b| {
      FindIs(s, c, |a| + j);
    } else {
      FoundIff(s, c);
      assert HasNo(s, c);
    }
  }

  /** A host and a port that cannot be read back from their printed form, but print to a text that opens with another,
      bracketed host with a colon in it that stands for itself: the first closing bracket, of the host or else of the
      port, ends it, and a colon follows. */
  predicate Reopens(r: Resolver, host: string, port: string) {
    var e, k := Find(host, ']'), Find(port, ']');
    if Bracketed(host) then
      e + 1 < |host| && host[e + 1] == ':' && !HasNo(host[..e], ':') && NormalizeHost(r, host[..e]) == host[..e]
    else if host == "" || host[0] != '[' then false
    else if e < |host| then
      e >= 1 && (e + 1 == |host| || host[e + 1] == ':') && Bracketed(host[1..e])
      && NormalizeHost(r, host[1..e]) == host[1..e]
    else
      k + 1 < |port| && port[k + 1] == ':' && Bracketed(host[1..] + ":" + port[..k])
      && NormalizeHost(r, host[1..] + ":" + port[..k]) == host[1..] + ":" + port[..k]
  }

  /** The text opens "[h]:" with a host that stands for itself. */
  lemma OpensAt(r: Resolver, s: string, e: nat, h: string)
    requires s != "" && s[0] == '[' && Find(s, ']') == e && 1 <= e < |s| && h == s[1..e]
    ensures OpensBracketed(r, s) <==> e + 1 < |s| && s[e + 1] == ':' && Bracketed(h) && NormalizeHost(r, h) == h
  {
    hide NormalizeHost; hide Find; hide Bracketed;
  }

  lemma OpensNot(r: Resolver, s: string)
    requires s == "" || s[0] != '[' || Find(s, ']') == |s|
    ensures !OpensBracketed(r, s)
  {
    hide NormalizeHost; hide Find; hide Bracketed;
  }

  lemma CutInBrackets(host: string, port: string, e: nat)
    requires e < |host| && host[e] == ']' && HasNo(host[..e], ']')
    ensures var s := "[" + host + "]" + ":" + port;
            && e + 2 < |s| && s[0] == '[' && s[e + 1] == ']' && (forall i | 0 <= i < e + 1 :: s[i] != ']')
            && s[1..e + 1] == host[..e] && s[e + 2] == if e + 1 < |host| then host[e + 1] else ']'
  {
    var s := "[" + host + "]" + ":" + port;
    forall i | 0 < i < e + 1 ensures s[i] != ']' { assert s[i] == host[..e][i - 1]; }
    hide HasNo;
    assert s[1..e + 1] == host[..e];
  }

  lemma BracketedPart(host: string, e: nat)
    requires Bracketed(host) && e < |host|
    ensures Bracketed(host[..e]) <==> !HasNo(host[..e], ':')
  {
    assert e > 0 ==> host[..e][0] == host[0];
  }

  lemma ReopensBracketIs(r: Resolver, host: string, port: string)
    requires Bracketed(host)
    ensures var e := Find(host, ']');
            Reopens(r, host, port)
            <==> e + 1 < |host| && host[e + 1] == ':' && !HasNo(host[..e], ':')
                 && NormalizeHost(r, host[..e]) == host[..e]
  {
    hide NormalizeHost; hide Find; hide Bracketed; hide HasNo;
  }

  lemma BracketedPrint(host: string, port: string)
    requires Bracketed(host)
    ensures BuildAddress(host, port) == "[" + host + "]" + ":" + port
  {
    hide Bracketed;
  }

  lemma NoneBefore(s: string, c: char)
    ensures HasNo(s[..Find(s, c)], c)
  {
    hide Find;
  }

  lemma ReopensBracketed(r: Resolver, host: string, port: string)
    requires Bracketed(host) && !HasNo(host, ']')
    ensures OpensBracketed(r, BuildAddress(host, port)) <==> Reopens(r, host, port)
  {
    hide *;
    var s, e := "[" + host + "]" + ":" + port, Find(host, ']');
    FoundIff(host, ']');
    NoneBefore(host, ']');
    BracketedPrint(host, port);
    CutInBrackets(host, port, e);
    FindIs(s, ']', e + 1);
    OpensAt(r, s, e + 1, host[..e]);
    BracketedPart(host, e);
    ReopensBracketIs(r, host, port);
  }

  lemma CutInHost(host: string, port: string, e: nat)
    requires host != "" && host[0] == '[' && e < |host| && host[e] == ']'
    ensures var s := host + ":" + port;
            && s == host + (":" + port) && 1 <= e && e + 1 < |s| && s[0] == '[' && s[1..e] == host[1..e]
            && s[e + 1] == if e + 1 < |host| then host[e + 1] else ':'
  {
  }

  lemma ReopensHostIs(r: Resolver, host: string, port: string)
    requires !Bracketed(host) && host != "" && host[0] == '[' && 1 <= Find(host, ']') < |host|
    ensures var e := Find(host, ']');
            Reopens(r, host, port) <==> (e + 1 == |host| || host[e + 1] == ':') && Bracketed(host[1..e])
                                        && NormalizeHost(r, host[1..e]) == host[1..e]
  {
    hide NormalizeHost; hide Find; hide Bracketed; hide HasNo;
  }

  lemma ReopensInHost(r: Resolver, host: string, port: string)
    requires !Bracketed(host) && host != "" && host[0] == '[' && Find(host, ']') < |host|
    ensures OpensBracketed(r, BuildAddress(host, port)) <==> Reopens(r, host, port)
  {
    hide *;
    var s, e := host + ":" + port, Find(host, ']');
    OpenPrint(host, port);
    CutInHost(host, port, e);
    FindPrefix(host, ":" + port, ']');
    OpensAt(r, s, e, host[1..e]);
    ReopensHostIs(r, host, port);
  }

  lemma CutInPort(host: string, port: string, k: nat)
    requires host != "" && host[0] == '[' && k < |port|
    ensures var s, e := host + ":" + port, |host| + 1 + k;
            && s == host + (":" + port) && e < |s| && s[0] == '[' && s[1..e] == host[1..] + ":" + port[..k]
            && (e + 1 < |s| <==> k + 1 < |port|) && (k + 1 < |port| ==> s[e + 1] == port[k + 1])
  {
    var s, e := host + ":" + port, |host| + 1 + k;
    assert s[1..e] == host[1..] + ":" + port[..k];
  }

  lemma ReopensPortIs(r: Resolver, host: string, port: string)
    requires !Bracketed(host) && host != "" && host[0] == '[' && Find(host, ']') == |host|
    ensures var k := Find(port, ']');
            Reopens(r, host, port)
            <==> k + 1 < |port| && port[k + 1] == ':' && Bracketed(host[1..] + ":" + port[..k])
                 && NormalizeHost(r, host[1..] + ":" + port[..k]) == host[1..] + ":" + port[..k]
  {
    hide NormalizeHost; hide Find; hide Bracketed; hide HasNo;
  }

  lemma ReopensInPort(r: Resolver, host: string, port: string)
    requires !Bracketed(host) && host != "" && host[0] == '[' && Find(host, ']') == |host|
    ensures OpensBracketed(r, BuildAddress(host, port)) <==> Reopens(r, host, port)
  {
    hide *;
    var s, k := host + ":" + port, Find(port, ']');
    OpenPrint(host, port);
    ColonThen(port);
    FindPrefix(host, ":" + port, ']');
    ReopensPortIs(r, host, port);
    if k < |port| {
      CutInPort(host, port, k);
      OpensAt(r, s, |host| + 1 + k, host[1..] + ":" + port[..k]);
    } else {
      assert s == host + (":" + port);
      OpensNot(r, s);
    }
  }

  lemma ColonThen(port: string)
    ensures Find(":" + port, ']') == 1 + Find(port, ']')
  {
    assert (":" + port)[1..] == port;
  }

  lemma OpensIff(r: Resolver, host: string, port: string)
    requires !Recoverable(host, port) && Tidy(port)
    ensures OpensBracketed(r, BuildAddress(host, port)) <==> Reopens(r, host, port)
  {
    if Bracketed(host) {
      ReopensBracketed(r, host, port);
    } else if host == "" || host[0] != '[' {
      assert BuildAddress(host, port)[0] == if host == "" then ':' else host[0];
      OpensNot(r, BuildAddress(host, port));
    } else if Find(host, ']') < |host| {
      ReopensInHost(r, host, port);
    } else {
      ReopensInPort(r, host, port);
    }
    hide NormalizeHost; hide Find; hide BuildAddress; hide OpensBracketed;
  }

  /** When normalising any text twice is normalising it once, exactly. If what was printed can be read back: unless its
      host is 127.0.0.1 on a machine whose own IP is something else. If it cannot: only when host and port happen to
      open with another, bracketed host that stands for itself. */
  lemma NormalizeTwice(r: Resolver, t: string)
    requires Proper(r)
    ensures var a := SplitHostPort(t);
            var n, p := NormalizeHost(r, a.host), PortText(a.port);
            Normalize(r, Normalize(r, t)) == Normalize(r, t)
            <==> if Recoverable(n, p) then (n == "127.0.0.1" ==> r.nodeIp == "127.0.0.1") else Reopens(r, n, p)
  {
    hide *;
    NormalizeIs(r, t);
    TwiceByPrint(r, t);
    var a := SplitHostPort(t);
    var n, p := NormalizeHost(r, a.host), PortText(a.port);
    if !Recoverable(n, p) { OpensIff(r, n, p); }
  }

  lemma TwiceByPrint(r: Resolver, t: string)
    requires Proper(r)
    ensures var a := SplitHostPort(t);
            var n, p := NormalizeHost(r, a.host), PortText(a.port);
            Normalize(r, Normalize(r, t)) == Normalize(r, t)
            <==> if Recoverable(n, p) then (n == "127.0.0.1" ==> r.nodeIp == "127.0.0.1")
                 else OpensBracketed(r, Normalize(r, t))
  {
    var a := SplitHostPort(t);
    var n, p := NormalizeHost(r, a.host), PortText(a.port);
    var once := Normalize(r, t);
    NormalizeIs(r, t);
    HostTwice(r, a.host);
    SettledIff(r, once);
    if Recoverable(n, p) {
      ParseRecovers(n, p);
      hide *;
      if Normalize(r, once) == once { FixedParses(r, once); }
      if NormalizeHost(r, n) == n { CanonicalBuilt(r, n, p); }
    } else {
      PrintedLast(n, p);
      hide *;
      if OpensBracketed(r, once) { OpensCanonical(r, once); }
      if Normalize(r, once) == once {
        FixedParses(r, once);
        var b := SplitHostPort(once);
        if Bracketed(b.host) { CanonicalOpens(r, b.host, b.port.value); }
        else { PlainReading(b.host, b.port.value, n, p); }
      }
    }
  }

  lemma CanonicalBuilt(r: Resolver, host: string, port: string)
    requires Recoverable(host, port) && NormalizeHost(r, host) == host
    ensures Canonical(r, BuildAddress(host, port))
  {
  }

  lemma PrintedLast(host: string, port: string)
    requires Tidy(port)
    ensures var s := BuildAddress(host, port); s != "" && !IsSpace(s[|s| - 1])
  {
    var s := BuildAddress(host, port);
    if port != "" { assert s[|s| - 1] == port[|port| - 1]; } else { assert s[|s| - 1] == ':'; }
  }

  lemma PlainReading(h: string, q: string, n: string, p: string)
    requires Recoverable(h, q) && !Bracketed(h) && BuildAddress(h, q) == BuildAddress(n, p)
    ensures Recoverable(n, p)
  {
    OneReading(h, q, n, p);
  }

  ghost predicate NoBrackets(s: string) {
    HasNo(s, '[') && HasNo(s, ']')
  }

  /** Without brackets in what was parsed the condition is on host and port alone. */
  lemma PlainTwice(r: Resolver, t: string)
    requires Proper(r)
    requires NoBrackets(SplitHostPort(t).host) && NoBrackets(PortText(SplitHostPort(t).port))
    ensures var a := SplitHostPort(t);
            var n, p := NormalizeHost(r, a.host), PortText(a.port);
            Normalize(r, Normalize(r, t)) == Normalize(r, t)
            <==> (n == "127.0.0.1" ==> r.nodeIp == "127.0.0.1") && (!HasNo(n, ':') || HasNo(p, ':'))
  {
    var a := SplitHostPort(t);
    var n, p := NormalizeHost(r, a.host), PortText(a.port);
    NormalizeTwice(r, t);
    NormalizeIs(r, t);
    NormalNoBrackets(r, a.host);
    hide NormalizeHost; hide SplitHostPort; hide PortText; hide Normalize; hide Strip;
    assert !HasNo(n, ':') <==> Bracketed(n);
  }

  /** If what is printed can be read back, the second pass settles. */
  lemma ReadableSettles(r: Resolver, t: string)
    requires Proper(r)
    requires var a := SplitHostPort(t); Recoverable(NormalizeHost(r, a.host), PortText(a.port))
    ensures var twice := Normalize(r, Normalize(r, t)); Normalize(r, twice) == twice
  {
    var a := SplitHostPort(t);
    var n, p := NormalizeHost(r, a.host), PortText(a.port);
    NormalizeRead(r, t);
    HostTwice(r, a.host);
    OwnAddress(r);
    hide *;
    if NormalizeHost(r, n) == n {
      SettledPair(r, n, p, n);
    } else {
      LoopbackPlain();
      SettledPair(r, n, p, r.nodeIp);
    }
  }

  lemma LoopbackPlain()
    ensures HasNo("127.0.0.1", ':')
  {
  }

  /** The machine's own address, which 127.0.0.1 stands for, resolves to itself. */
  lemma OwnAddress(r: Resolver)
    requires Proper(r)
    ensures var ip := r.nodeIp;
            && NormalizeHost(r, "127.0.0.1") == ip && NormalizeHost(r, ip) == ip
            && HasNo(ip, ':') && NoEdgeSpace(ip) && (ip != "" ==> ip[0] != '[')
  {
    NormalizeLoopback(r);
    DottedIsNormal(r.nodeIp);
    var k: nat :| k < ADDRESS_SPACE && r.nodeIp == Dotted(k);
    LoopbackText();
    hide NormalizeHost; hide Dotted; hide Decimal; hide Lower; hide Strip;
    if k != LOOPBACK { NormalizeDotted(r, k); }
  }

  lemma NormalizeRead(r: Resolver, t: string)
    ensures Normalize(r, t) == BuildAddress(NormalizeHost(r, SplitHostPort(t).host), PortText(SplitHostPort(t).port))
  {
  }

  lemma SettledPair(r: Resolver, n: string, p: string, m: string)
    requires Recoverable(n, p) && NormalizeHost(r, n) == m && NormalizeHost(r, m) == m
    requires m == n || (HasNo(n, ':') && HasNo(m, ':') && NoEdgeSpace(m) && (m != "" ==> m[0] != '['))
    ensures Normalize(r, BuildAddress(n, p)) == BuildAddress(m, p)
    ensures Normalize(r, BuildAddress(m, p)) == BuildAddress(m, p)
  {
    ParseRecovers(n, p);
    assert Recoverable(m, p) by { hide NormalizeHost; }
    ParseRecovers(m, p);
    hide NormalizeHost; hide Recoverable; hide BuildAddress; hide SplitHostPort;
  }

  /** Every text without brackets in what was parsed settles by the third pass. */
  lemma PlainSettles(r: Resolver, t: string)
    requires Proper(r)
    requires NoBrackets(SplitHostPort(t).host) && NoBrackets(PortText(SplitHostPort(t).port))
    ensures var third := Normalize(r, Normalize(r, Normalize(r, t))); Normalize(r, third) == third
  {
    var a := SplitHostPort(t);
    var n, p := NormalizeHost(r, a.host), PortText(a.port);
    if Recoverable(n, p) {
      hide *;
      ReadableSettles(r, t);
    } else {
      NormalizeIs(r, t);
      NormalNoBrackets(r, a.host);
      PrintedUnread(n, p);
      NoBracketsPrinted(n, p);
      var once := Normalize(r, t);
      HostIs(r, once);
      NormalNoBrackets(r, once);
      hide NormalizeHost; hide Strip; hide SplitStripped; hide IsDotted; hide BuildAddress;
      NoneReadable(NormalizeHost(r, once));
      ReadableSettles(r, once);
    }
  }

  lemma NoneReadable(n: string)
    requires NoBrackets(n) && (n != "" ==> !IsSpace(n[0]))
    ensures Recoverable(n, "None")
  {
  }

  lemma NoBracketsPrinted(n: string, p: string)
    requires NoBrackets(n) && NoBrackets(p) && HasNo(n, ':')
    ensures NoBrackets(BuildAddress(n, p))
  {
  }

  /** A printed text that cannot be read back is taken for a host. */
  lemma PrintedUnread(n: string, p: string)
    requires NoBrackets(n) && NoBrackets(p) && Tidy(p) && (n != "" ==> !IsSpace(n[0])) && !Recoverable(n, p)
    ensures HasNo(n, ':') && SplitStripped(BuildAddress(n, p)) == HostPort(BuildAddress(n, p), None)
  {
    assert n != "" ==> n[0] != '[';
    var u := BuildAddress(n, p);
    assert u == n + ":" + p && !HasNo(p, ':') && u[0] != '[';
    var i :| 0 <= i < |p| && p[i] == ':';
    TwoColons(u, |n|, |n| + 1 + i);
    hide Count;
  }

  /** An opening bracket without a closing one, at least two colons, and no space at the edges. */
  ghost predicate Open(u: string) {
    u != "" && u[0] == '[' && HasNo(u, ']') && !HasNo(u, ':') && Count(u, ':') != 1 && NoEdgeSpace(u)
  }

  /** Such a text, unknown to the resolver, gets another port at every pass. */
  lemma OpenGrows(r: Resolver, u: string)
    requires Open(u) && r.lookup(Lower(u)).None?
    ensures Normalize(r, u) == Lower(u) + ":None" && Open(Normalize(r, u))
  {
    StripNothing(u);
    var h := Lower(u);
    LoweredClean(u, ']');
    assert NoEdgeSpace(h) && h[0] == '[';
    StripNothing(h);
    var i :| 0 <= i < |u| && u[i] == ':';
    assert h[i] == ':';
    hide Strip; hide Count;
    assert HostPort(u, None) == SplitHostPort(u);
    UnknownHost(r, u);
    PrintedColons(h, "None");
    GrownEdges(h);
  }

  lemma UnknownHost(r: Resolver, u: string)
    requires u != "" && u[0] == '[' && Strip(u) == u && Strip(Lower(u)) == Lower(u) && r.lookup(Lower(u)).None?
    ensures NormalizeHost(r, u) == Lower(u)
  {
    LowerTwice(u);
    var h := Lower(u);
    assert h[0] == '[' && "localhost"[0] == 'l' && "127.0.0.1"[0] == '1' && "::1"[0] == ':';
  }

  lemma GrownEdges(h: string)
    requires h != "" && h[0] == '[' && HasNo(h, ']') && !HasNo(h, ':') && NoEdgeSpace(h)
    ensures var u := h + ":None";
            && BuildAddress(h, "None") == u && u[0] == '[' && HasNo(u, ']') && !HasNo(u, ':') && NoEdgeSpace(u)
  {
    assert (h + ":None")[|h|] == ':';
  }

  function Passes(r: Resolver, t: string, k: nat): string {
    if k == 0 then t else Normalize(r, Passes(r, t, k - 1))
  }

  /** So there are texts that never settle. */
  lemma {:induction false} NeverSettles(r: Resolver, u: string, k: nat)
    requires Open(u) && forall h | h != "" && h[0] == '[' :: r.lookup(h).None?
    ensures Open(Passes(r, u, k)) && |Passes(r, u, k)| == |u| + 5 * k
  {
    hide Open; hide Normalize;
    if k > 0 {
      NeverSettles(r, u, k - 1);
      var v := Passes(r, u, k - 1);
      assert v != "" && Lower(v)[0] == '[' by { OpenStart(v); }
      OpenGrows(r, v);
    }
  }

  lemma OpenStart(u: string)
    requires Open(u)
    ensures u != "" && u[0] == '['
  {
  }

  lemma NormalNoBrackets(r: Resolver, host: string)
    requires Proper(r) && NoBrackets(host)
    ensures NoBrackets(NormalizeHost(r, host))
  {
    var n := NormalizeHost(r, host);
    if n == Lower(Strip(host)) {
      LoweredClean(host, '[');
      LoweredClean(host, ']');
    } else {
      DottedIsNormal(n);
    }
  }

  lemma WellFormedRecovers(host: string, port: string)
    requires WellFormed(host, port)
    ensures Recoverable(host, port)
  {
  }

  lemma SplitTwoColons()
    ensures SplitHostPort("[a]:5:6") == HostPort("a", Some("5:6"))
    ensures SplitHostPort("a:5:6") == HostPort("a:5:6", None)
  {
    StripNothing("[a]:5:6");
    StripNothing("a:5:6");
    hide SplitStripped; hide Strip;
    TwoColonsBracketed();
    TwoColonsPlain();
  }

  lemma TwoColonsBracketed()
    ensures SplitStripped("[a]:5:6") == HostPort("a", Some("5:6"))
  {
    ParseBracketed("a", "5:6");
    hide *;
    assert "[" + "a" + "]" + ":" + "5:6" == "[a]:5:6";
  }

  lemma TwoColonsPlain()
    ensures SplitStripped("a:5:6") == HostPort("a:5:6", None)
  {
    var t := "a:5:6";
    CountOne(t, ':');
    hide Count;
    assert t[2..][1] == ':';
  }

  lemma PrintTwoColons()
    ensures BuildAddress("a", "5:6") == "a:5:6" && BuildAddress("a:5:6", "None") == "[a:5:6]:None"
    ensures SplitHostPort("[a:5:6]:None") == HostPort("a:5:6", Some("None"))
  {
    assert "a:5:6"[1] == ':';
    assert BuildAddress("a", "5:6") == "a:5:6" && BuildAddress("a:5:6", "None") == "[a:5:6]:None";
    NoneReadable("a:5:6");
    hide *;
    ParseRecovers("a:5:6", "None");
  }

  lemma LowerTwoColons()
    ensures Lower("a") == "a" && Lower("a:5:6") == "a:5:6" && NoEdgeSpace("a") && NoEdgeSpace("a:5:6")
  {
  }

  lemma PortTextIs(port: string)
    ensures PortText(Some(port)) == port && PortText(None) == "None"
  {
  }

  lemma HostIsItself(r: Resolver, host: string)
    requires NoEdgeSpace(host) && Lower(host) == host && host !in ["localhost", "127.0.0.1", "::1"]
    requires r.isIpv4(host) || r.lookup(host).None?
    ensures NormalizeHost(r, host) == host
  {
    StripNothing(host);
  }

  /** A text whose second pass changes it again, and whose third does not. */
  lemma MalformedSettlesLate(r: Resolver)
    requires r.isIpv4("a") || r.lookup("a").None?
    requires r.isIpv4("a:5:6") || r.lookup("a:5:6").None?
    ensures Normalize(r, "[a]:5:6") == "a:5:6" && Normalize(r, "a:5:6") == "[a:5:6]:None"
    ensures Normalize(r, "[a:5:6]:None") == "[a:5:6]:None"
  {
    LowerTwoColons();
    SplitTwoColons();
    PrintTwoColons();
    hide *;
    HostIsItself(r, "a");
    HostIsItself(r, "a:5:6");
    NormalizeRead(r, "[a]:5:6");
    NormalizeRead(r, "a:5:6");
    NormalizeRead(r, "[a:5:6]:None");
    PortTextIs("5:6");
    PortTextIs("None");
  }
}
