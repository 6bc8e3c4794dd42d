/** Which processes a stop is for, word by word of their command lines. */
module CommandLines {

  import opened Results
  import opened Text
  import opened Addresses
  import opened ScopedStop

  // ---------------------------------------------------------------- what a command line carries

  /** Word i gives `prefix` the value v: after an equals sign, or in the next word. */
  ghost predicate GivenAt(cmdline: seq<string>, prefix: string, i: nat, v: string) {
    && i < |cmdline|
    && (cmdline[i] == prefix + "=" + v || (cmdline[i] == prefix && i + 1 < |cmdline| && cmdline[i + 1] == v))
  }

  /** None of the first n words gives `prefix` a value. */
  ghost predicate NotGiven(cmdline: seq<string>, prefix: string, n: nat) {
    forall i: nat, v | i < n :: !GivenAt(cmdline, prefix, i, v)
  }

  ghost predicate FirstGiven(cmdline: seq<string>, prefix: string, v: string) {
    exists i: nat :: GivenAt(cmdline, prefix, i, v) && NotGiven(cmdline, prefix, i)
  }

  /** An option's first value; one dash counts only where two do not occur. */
  ghost predicate Given(cmdline: seq<string>, name: string, v: string) {
    || FirstGiven(cmdline, "--" + name, v)
    || (NotGiven(cmdline, "--" + name, |cmdline|) && FirstGiven(cmdline, "-" + name, v))
  }

  /** The first Java system property of that name. */
  ghost predicate JavaGiven(cmdline: seq<string>, name: string, v: string) {
    exists i: nat :: i < |cmdline| && cmdline[i] == "-D" + name + "=" + v
                     && forall j: nat, u | j < i :: cmdline[j] != "-D" + name + "=" + u
  }

  ghost predicate OccursAt(s: string, text: string, k: nat) {
    k + |text| <= |s| && s[k..k + |text|] == text
  }

  ghost predicate OccursIn(s: string, text: string) {
    exists k: nat :: OccursAt(s, text, k)
  }

  /** Some word holds the text. */
  ghost predicate Mentioned(cmdline: seq<string>, text: string) {
    exists i: nat :: i < |cmdline| && OccursIn(cmdline[i], text)
  }

  /** The five shapes of command line that carry a GCS address, in order of precedence. */
  ghost predicate Shape(cmdline: seq<string>, k: nat, v: string) {
    if k == 1 then v != "" && Given(cmdline, "gcs-address", v)
    else if k == 2 then v != "" && Given(cmdline, "ray_address", v)
    else if k == 3 then v != "" && JavaGiven(cmdline, "ray.address", v)
    else if k == 4 then v != "" && Mentioned(cmdline, "ray.util.client.server") && Given(cmdline, "address", v)
    else if k == 5 then
      Mentioned(cmdline, "gcs_server") && exists host, port ::
        ServerAt(cmdline, host, port) && v == BuildAddress(host, port)
    else false
  }

  /** A GCS server's own host and port. */
  ghost predicate ServerAt(cmdline: seq<string>, host: string, port: string) {
    && host != "" && port != "" && port != "0"
    && Given(cmdline, "node-ip-address", host) && Given(cmdline, "gcs_server_port", port)
  }

  /** The address a command line carries: that of the first shape it has. */
  ghost predicate Carries(cmdline: seq<string>, v: string) {
    exists k: nat :: Shape(cmdline, k, v) && forall j: nat, u | j < k :: !Shape(cmdline, j, u)
  }

  lemma OccursShift(s: string, text: string, k: nat)
    requires s != ""
    ensures OccursAt(s[1..], text, k) <==> OccursAt(s, text, k + 1)
  {
    if k + 1 + |text| <= |s| { assert s[1..][k..k + |text|] == s[k + 1..k + 1 + |text|]; }
  }

  lemma AtStart(s: string, text: string)
    ensures OccursAt(s, text, 0) ==> StartsWith(s, text)
  {
    if OccursAt(s, text, 0) { assert s[0..|text|] == s[..|text|]; }
  }

  lemma {:induction false} ContainsIff(s: string, text: string)
    ensures Contains(s, text) <==> OccursIn(s, text)
  {
    if StartsWith(s, text) {
      assert OccursAt(s, text, 0);
    } else if s != "" {
      ContainsIff(s[1..], text);
      if OccursIn(s[1..], text) {
        var k: nat :| OccursAt(s[1..], text, k);
        OccursShift(s, text, k);
      }
      if OccursIn(s, text) {
        var k: nat :| OccursAt(s, text, k);
        AtStart(s, text);
        assert k > 0;
        OccursShift(s, text, k - 1);
      }
    }
  }

  lemma BlankInside(s: string, text: string, k: nat, n: nat)
    requires OccursAt(s, text, k) && n < |s| && s[n] == ' '
    ensures k <= n < k + |text| ==> !HasNo(text, ' ')
  {
    if k <= n < k + |text| { assert text[n - k] == s[k..k + |text|][n - k]; }
  }

  /** A text without blanks occurs in joined pieces only inside one of them. */
  lemma OccursAcross(a: string, b: string, text: string)
    requires text != "" && HasNo(text, ' ')
    ensures OccursIn(a + " " + b, text) <==> OccursIn(a, text) || OccursIn(b, text)
  {
    var s, n, m := a + " " + b, |a|, |text|;
    hide HasNo;
    if OccursIn(a, text) {
      var k: nat :| OccursAt(a, text, k);
      WithinFirst(a, b, text, k);
    }
    if OccursIn(b, text) {
      var k: nat :| OccursAt(b, text, k);
      WithinSecond(a, b, text, k);
    }
    if OccursIn(s, text) {
      var k: nat :| OccursAt(s, text, k);
      BlankInside(s, text, k, n);
      hide OccursAt;
      if k + m <= n { WithinFirst(a, b, text, k); } else { WithinSecond(a, b, text, k - n - 1); }
    }
  }

  lemma WithinFirst(a: string, b: string, text: string, k: nat)
    requires k + |text| <= |a|
    ensures OccursAt(a + " " + b, text, k) <==> OccursAt(a, text, k)
  {
    assert (a + " " + b)[k..k + |text|] == a[k..k + |text|];
  }

  lemma WithinSecond(a: string, b: string, text: string, k: nat)
    ensures OccursAt(a + " " + b, text, |a| + 1 + k) <==> OccursAt(b, text, k)
  {
    if k + |text| <= |b| { assert (a + " " + b)[|a| + 1 + k..|a| + 1 + k + |text|] == b[k..k + |text|]; }
  }

  lemma {:induction false} JoinedMentions(cmdline: seq<string>, text: string)
    requires text != "" && HasNo(text, ' ')
    ensures OccursIn(Join(cmdline), text) <==> Mentioned(cmdline, text)
  {
    hide OccursIn;
    if cmdline == [] {
      NowhereInNothing(text);
    } else {
      MentionedCons(cmdline, text);
      if |cmdline| == 1 {
        assert cmdline[1..] == [];
      } else {
        JoinedMentions(cmdline[1..], text);
        OccursAcross(cmdline[0], Join(cmdline[1..]), text);
      }
    }
  }

  lemma NowhereInNothing(text: string)
    requires text != ""
    ensures !OccursIn("", text)
  {
  }

  lemma MentionedCons(cmdline: seq<string>, text: string)
    requires cmdline != []
    ensures Mentioned(cmdline, text) <==> OccursIn(cmdline[0], text) || Mentioned(cmdline[1..], text)
    ensures !Mentioned([], text)
  {
    hide OccursIn;
    if Mentioned(cmdline[1..], text) {
      var i: nat :| i < |cmdline| - 1 && OccursIn(cmdline[1..][i], text);
      assert OccursIn(cmdline[i + 1], text);
    }
    if Mentioned(cmdline, text) {
      var i: nat :| i < |cmdline| && OccursIn(cmdline[i], text);
      if i > 0 { assert OccursIn(cmdline[1..][i - 1], text); }
    }
  }

  lemma GivenRest(cmdline: seq<string>, prefix: string, i: nat, v: string)
    requires cmdline != []
    ensures GivenAt(cmdline, prefix, i + 1, v) <==> GivenAt(cmdline[1..], prefix, i, v)
  {
  }

  lemma GivenOnce(cmdline: seq<string>, prefix: string, i: nat, v: string, u: string)
    requires GivenAt(cmdline, prefix, i, v) && GivenAt(cmdline, prefix, i, u)
    ensures v == u
  {
    assert (prefix + "=" + v)[|prefix| + 1..] == v && (prefix + "=" + u)[|prefix| + 1..] == u;
  }

  lemma GivenHere(cmdline: seq<string>, prefix: string, v: string)
    requires cmdline != []
    ensures GivenAt(cmdline, prefix, 0, v)
            <==> if StartsWith(cmdline[0], prefix + "=") then v == cmdline[0][|prefix| + 1..]
                 else cmdline[0] == prefix && |cmdline| > 1 && cmdline[1] == v
  {
    var w, eq := cmdline[0], prefix + "=";
    if StartsWith(w, eq) { assert w == eq + w[|eq|..]; }
    if w == prefix + "=" + v { assert w == eq + v && w[..|eq|] == eq && w[|eq|..] == v; }
  }

  lemma NotGivenRest(cmdline: seq<string>, prefix: string, n: nat)
    requires cmdline != [] && (forall v :: !GivenAt(cmdline, prefix, 0, v)) && NotGiven(cmdline[1..], prefix, n)
    ensures NotGiven(cmdline, prefix, n + 1)
  {
    forall i: nat, v | i < n + 1 ensures !GivenAt(cmdline, prefix, i, v) {
      if i > 0 { GivenRest(cmdline, prefix, i - 1, v); }
    }
  }

  lemma ScanStep(cmdline: seq<string>, prefix: string)
    requires cmdline != []
    ensures FlagScan(cmdline, prefix)
            == if StartsWith(cmdline[0], prefix + "=") then Some(cmdline[0][|prefix| + 1..])
               else if cmdline[0] == prefix && |cmdline| > 1 then Some(cmdline[1])
               else FlagScan(cmdline[1..], prefix)
    ensures FlagScan([], prefix) == None
  {
  }

  lemma {:induction false} ScanFinds(cmdline: seq<string>, prefix: string)
    ensures match FlagScan(cmdline, prefix)
            case Some(v) => FirstGiven(cmdline, prefix, v)
            case None => NotGiven(cmdline, prefix, |cmdline|)
  {
    hide FlagScan; hide GivenAt; hide NotGiven; hide StartsWith;
    if cmdline == [] {
      NothingGiven(prefix);
      ScanStep([prefix], prefix);
    } else {
      ScanStep(cmdline, prefix);
      forall v { GivenHere(cmdline, prefix, v); }
      NothingBefore(cmdline, prefix);
      if forall v :: !GivenAt(cmdline, prefix, 0, v) {
        ScanFinds(cmdline[1..], prefix);
        var scan := FlagScan(cmdline[1..], prefix);
        assert FlagScan(cmdline, prefix) == scan by { NoneHere(cmdline, prefix); }
        if scan.Some? {
          var i: nat :| GivenAt(cmdline[1..], prefix, i, scan.value) && NotGiven(cmdline[1..], prefix, i);
          GivenRest(cmdline, prefix, i, scan.value);
          NotGivenRest(cmdline, prefix, i);
        } else {
          NotGivenRest(cmdline, prefix, |cmdline| - 1);
        }
      } else {
        var v :| GivenAt(cmdline, prefix, 0, v);
        assert FlagScan(cmdline, prefix) == Some(v);
      }
    }
  }

  lemma NoneHere(cmdline: seq<string>, prefix: string)
    requires cmdline != [] && forall v :: !GivenAt(cmdline, prefix, 0, v)
    ensures !StartsWith(cmdline[0], prefix + "=") && !(cmdline[0] == prefix && |cmdline| > 1)
  {
    GivenHere(cmdline, prefix, if StartsWith(cmdline[0], prefix + "=") then cmdline[0][|prefix| + 1..]
                               else if |cmdline| > 1 then cmdline[1] else "");
  }

  lemma NothingGiven(prefix: string)
    ensures NotGiven([], prefix, 0)
  {
  }

  lemma NothingBefore(cmdline: seq<string>, prefix: string)
    ensures NotGiven(cmdline, prefix, 0)
  {
  }

  lemma FirstOnce(cmdline: seq<string>, prefix: string, v: string, u: string)
    requires FirstGiven(cmdline, prefix, v)
    ensures FirstGiven(cmdline, prefix, u) ==> v == u
    ensures !NotGiven(cmdline, prefix, |cmdline|)
  {
    var i: nat :| GivenAt(cmdline, prefix, i, v) && NotGiven(cmdline, prefix, i);
    assert i < |cmdline|;
    if FirstGiven(cmdline, prefix, u) {
      var j: nat :| GivenAt(cmdline, prefix, j, u) && NotGiven(cmdline, prefix, j);
      hide GivenAt;
      assert !(i < j) && !(j < i);
      GivenOnce(cmdline, prefix, i, v, u);
    }
  }

  /** The flag reader gives an option's value exactly. */
  lemma FlagValueIs(cmdline: seq<string>, name: string, v: string)
    ensures FlagValue(cmdline, name) == Some(v) <==> Given(cmdline, name, v)
  {
    ScanFinds(cmdline, "--" + name);
    ScanFinds(cmdline, "-" + name);
    hide FlagScan; hide FirstGiven; hide NotGiven;
    var long, short := FlagScan(cmdline, "--" + name), FlagScan(cmdline, "-" + name);
    if long.Some? { FirstOnce(cmdline, "--" + name, long.value, v); }
    if short.Some? { FirstOnce(cmdline, "-" + name, short.value, v); }
    if FirstGiven(cmdline, "--" + name, v) { FirstOnce(cmdline, "--" + name, v, v); }
    if FirstGiven(cmdline, "-" + name, v) { FirstOnce(cmdline, "-" + name, v, v); }
  }

  lemma {:induction false} JavaPropertyIs(cmdline: seq<string>, name: string, v: string)
    ensures JavaProperty(cmdline, name) == Some(v) <==> JavaGiven(cmdline, name, v)
  {
    var needle := "-D" + name + "=";
    if cmdline != [] {
      var w, rest := cmdline[0], cmdline[1..];
      JavaPropertyIs(rest, name, v);
      hide JavaProperty;
      JavaStep(cmdline, name);
      assert StartsWith(w, needle) ==> w == needle + w[|needle|..];
      assert forall u :: (needle + u)[..|needle|] == needle && (needle + u)[|needle|..] == u;
      if StartsWith(w, needle) {
        assert w == "-D" + name + "=" + w[|needle|..];
        if JavaGiven(cmdline, name, v) {
          var i: nat :| i < |cmdline| && cmdline[i] == "-D" + name + "=" + v
                        && forall j: nat, u | j < i :: cmdline[j] != "-D" + name + "=" + u;
          assert i == 0;
        }
      } else {
        forall u ensures w != "-D" + name + "=" + u { assert "-D" + name + "=" + u == needle + u; }
        if JavaGiven(rest, name, v) {
          var i: nat :| i < |rest| && rest[i] == "-D" + name + "=" + v
                        && forall j: nat, u | j < i :: rest[j] != "-D" + name + "=" + u;
          forall j: nat, u | j < i + 1 ensures cmdline[j] != "-D" + name + "=" + u {
            if j > 0 { assert cmdline[j] == rest[j - 1]; }
          }
          assert cmdline[i + 1] == "-D" + name + "=" + v;
        }
        if JavaGiven(cmdline, name, v) {
          var i: nat :| i < |cmdline| && cmdline[i] == "-D" + name + "=" + v
                        && forall j: nat, u | j < i :: cmdline[j] != "-D" + name + "=" + u;
          assert i > 0 && rest[i - 1] == "-D" + name + "=" + v;
          forall j: nat, u | j < i - 1 ensures rest[j] != "-D" + name + "=" + u { assert rest[j] == cmdline[j + 1]; }
        }
      }
    }
  }

  lemma JavaStep(cmdline: seq<string>, name: string)
    requires cmdline != []
    ensures var needle := "-D" + name + "=";
            JavaProperty(cmdline, name)
            == if StartsWith(cmdline[0], needle) then Some(cmdline[0][|needle|..]) else JavaProperty(cmdline[1..], name)
  {
  }

  lemma Mentions(cmdline: seq<string>)
    ensures Contains(Join(cmdline), "ray.util.client.server") <==> Mentioned(cmdline, "ray.util.client.server")
    ensures (exists i | 0 <= i < |cmdline| :: Contains(cmdline[i], "gcs_server")) <==> Mentioned(cmdline, "gcs_server")
  {
    ContainsIff(Join(cmdline), "ray.util.client.server");
    NoBlank();
    JoinedMentions(cmdline, "ray.util.client.server");
    forall i | 0 <= i < |cmdline| { ContainsIff(cmdline[i], "gcs_server"); }
    hide Contains; hide OccursIn; hide Join;
    if Mentioned(cmdline, "gcs_server") {
      var i: nat :| i < |cmdline| && OccursIn(cmdline[i], "gcs_server");
      assert Contains(cmdline[i], "gcs_server");
    }
  }

  lemma NoBlank()
    ensures HasNo("ray.util.client.server", ' ')
  {
  }

  /** The value of a shape, if it has one. */
  function ShapeValue(cmdline: seq<string>, k: nat): Option<string> {
    var host, port := FlagValue(cmdline, "node-ip-address"), FlagValue(cmdline, "gcs_server_port");
    if k == 1 then Kept(FlagValue(cmdline, "gcs-address"))
    else if k == 2 then Kept(FlagValue(cmdline, "ray_address"))
    else if k == 3 then Kept(JavaProperty(cmdline, "ray.address"))
    else if k == 4 && Contains(Join(cmdline), "ray.util.client.server") then Kept(FlagValue(cmdline, "address"))
    else if k == 5 && (exists i | 0 <= i < |cmdline| :: Contains(cmdline[i], "gcs_server"))
            && NonEmpty(host) && NonEmpty(port) && port.value != "0"
    then Some(BuildAddress(host.value, port.value))
    else None
  }

  function Kept(o: Option<string>): Option<string> {
    if NonEmpty(o) then o else None
  }

  lemma ShapeIs(cmdline: seq<string>, k: nat, v: string)
    ensures Shape(cmdline, k, v) <==> ShapeValue(cmdline, k) == Some(v)
  {
    FlagValueIs(cmdline, "gcs-address", v);
    FlagValueIs(cmdline, "ray_address", v);
    JavaPropertyIs(cmdline, "ray.address", v);
    FlagValueIs(cmdline, "address", v);
    Mentions(cmdline);
    if k == 5 { ServerShape(cmdline, v); }
    hide FlagValue; hide JavaProperty; hide Contains; hide Join; hide BuildAddress; hide Given; hide JavaGiven;
    hide Mentioned;
    hide ServerAt;
  }

  lemma ServerShape(cmdline: seq<string>, v: string)
    ensures (exists host, port :: ServerAt(cmdline, host, port) && v == BuildAddress(host, port))
            <==> var host, port := FlagValue(cmdline, "node-ip-address"), FlagValue(cmdline, "gcs_server_port");
                 NonEmpty(host) && NonEmpty(port) && port.value != "0" && v == BuildAddress(host.value, port.value)
  {
    var h, p := FlagValue(cmdline, "node-ip-address"), FlagValue(cmdline, "gcs_server_port");
    forall host { FlagValueIs(cmdline, "node-ip-address", host); }
    forall port { FlagValueIs(cmdline, "gcs_server_port", port); }
    hide FlagValue; hide Given; hide BuildAddress;
    if NonEmpty(h) && NonEmpty(p) && p.value != "0" && v == BuildAddress(h.value, p.value) {
      assert ServerAt(cmdline, h.value, p.value);
    }
    if exists host, port :: ServerAt(cmdline, host, port) && v == BuildAddress(host, port) {
      var host, port :| ServerAt(cmdline, host, port) && v == BuildAddress(host, port);
      assert h == Some(host) && p == Some(port);
    }
  }

  lemma FirstShape(cmdline: seq<string>)
    ensures ExtractAddress(cmdline)
            == if ShapeValue(cmdline, 1).Some? then ShapeValue(cmdline, 1)
               else if ShapeValue(cmdline, 2).Some? then ShapeValue(cmdline, 2)
               else if ShapeValue(cmdline, 3).Some? then ShapeValue(cmdline, 3)
               else if ShapeValue(cmdline, 4).Some? then ShapeValue(cmdline, 4)
               else ShapeValue(cmdline, 5)
    ensures forall k: nat | k == 0 || k > 5 :: ShapeValue(cmdline, k).None?
  {
    hide FlagValue; hide JavaProperty; hide Contains; hide Join; hide BuildAddress;
  }

  /** Exactly which address is read off a command line, and exactly when none is. */
  lemma ExtractsWhatIsCarried(cmdline: seq<string>, v: string)
    ensures ExtractAddress(cmdline) == Some(v) <==> Carries(cmdline, v)
    ensures ExtractAddress(cmdline).None? <==> forall k: nat, u :: !Shape(cmdline, k, u)
  {
    hide *;
    FirstShape(cmdline);
    forall k: nat, u { ShapeIs(cmdline, k, u); }
    CarriedFirst(cmdline, v);
  }

  lemma CarriedFirst(cmdline: seq<string>, v: string)
    requires forall k: nat, u :: Shape(cmdline, k, u) <==> ShapeValue(cmdline, k) == Some(u)
    requires forall k: nat | k == 0 || k > 5 :: ShapeValue(cmdline, k).None?
    ensures Carries(cmdline, v)
            <==> Some(v) == if ShapeValue(cmdline, 1).Some? then ShapeValue(cmdline, 1)
                            else if ShapeValue(cmdline, 2).Some? then ShapeValue(cmdline, 2)
                            else if ShapeValue(cmdline, 3).Some? then ShapeValue(cmdline, 3)
                            else if ShapeValue(cmdline, 4).Some? then ShapeValue(cmdline, 4)
                            else ShapeValue(cmdline, 5)
  {
    hide ShapeValue; hide Shape;
    var first: nat := if ShapeValue(cmdline, 1).Some? then 1 else if ShapeValue(cmdline, 2).Some? then 2
                      else if ShapeValue(cmdline, 3).Some? then 3 else if ShapeValue(cmdline, 4).Some? then 4 else 5;
    assert forall j: nat, u | j < first :: !Shape(cmdline, j, u);
    if ShapeValue(cmdline, first).Some? { assert Shape(cmdline, first, ShapeValue(cmdline, first).value); }
    if Carries(cmdline, v) {
      var k: nat :| Shape(cmdline, k, v) && forall j: nat, u | j < k :: !Shape(cmdline, j, u);
      assert k >= first;
    }
  }

  // ---------------------------------------------------------------- whom the stop signals

  /** Keywords as Ray lists them: no blanks. */
  ghost predicate Plain(keywords: seq<Keyword>) {
    forall i | 0 <= i < |keywords| :: keywords[i].text != "" && HasNo(keywords[i].text, ' ')
  }

  /** A keyword is looked for in the process name or in the words of the command line; a name that Linux would have
      cut off cannot match. */
  ghost predicate IsRay(p: Proc, k: Keyword, linux: bool) {
    if k.byName then OccursIn(p.name, k.text) && (linux ==> |k.text| <= 15) else Mentioned(p.cmdline, k.text)
  }

  /** A Ray process that carries an address equal to one of the targets. */
  ghost predicate Ours(p: Proc, keywords: seq<Keyword>, linux: bool, r: Resolver, targets: seq<string>) {
    && (exists k | 0 <= k < |keywords| :: IsRay(p, keywords[k], linux))
    && exists v, t :: Carries(p.cmdline, v) && 0 <= t < |targets| && Normalize(r, v) == Normalize(r, targets[t])
  }

  lemma MatchesIs(p: Proc, k: Keyword, linux: bool)
    requires k.text != "" && HasNo(k.text, ' ')
    ensures Matches(p, k, linux) <==> IsRay(p, k, linux)
  {
    ContainsIff(p.name, k.text);
    ContainsIff(Join(p.cmdline), k.text);
    JoinedMentions(p.cmdline, k.text);
    hide Contains; hide OccursIn; hide Join; hide Mentioned;
  }

  lemma AttributedIs(p: Proc, r: Resolver, targets: seq<string>)
    ensures Attributed(p, r, targets)
            <==> exists v, t ::
              Carries(p.cmdline, v) && 0 <= t < |targets| && Normalize(r, v) == Normalize(r, targets[t])
  {
    forall v { ExtractsWhatIsCarried(p.cmdline, v); }
    hide ExtractAddress; hide Carries; hide Normalize;
    if Attributed(p, r, targets) {
      var t :| 0 <= t < |targets| && SameAddress(r, ExtractAddress(p.cmdline).value, targets[t]);
      assert Carries(p.cmdline, ExtractAddress(p.cmdline).value);
    }
    if exists v, t :: Carries(p.cmdline, v) && 0 <= t < |targets| && Normalize(r, v) == Normalize(r, targets[t]) {
      var v, t :| Carries(p.cmdline, v) && 0 <= t < |targets| && Normalize(r, v) == Normalize(r, targets[t]);
      assert SameAddress(r, v, targets[t]);
    }
  }

  lemma InBucketIs(p: Proc, keywords: seq<Keyword>, linux: bool, r: Resolver, targets: seq<string>)
    requires Plain(keywords)
    ensures InBucket(p, keywords, linux, r, targets) <==> Ours(p, keywords, linux, r, targets)
  {
    AttributedIs(p, r, targets);
    forall k | 0 <= k < |keywords| { MatchesIs(p, keywords[k], linux); }
    hide Matches; hide IsRay; hide Attributed; hide Carries; hide Normalize;
  }

  /** A pid is signalled exactly when it is of a Ray process whose command line carries one of the targets: with
      SIGTERM, or at once with SIGKILL if the stop is forced. */
  lemma StopSignals(procs: seq<Proc>, keywords: seq<Keyword>, linux: bool, r: Resolver, targets: seq<string>,
                    force: bool, exits: (nat, int) -> bool, batches: seq<seq<int>>, pid: int)
    requires |keywords| >= 2 && Plain(keywords) && Batches(batches, procs, Buckets(keywords), linux, r, targets)
    ensures (if force then Kill(pid) else Terminate(pid)) in RunLog(batches, force, exits)
            <==> exists i :: 0 <= i < |procs| && procs[i].pid == pid && Ours(procs[i], keywords, linux, r, targets)
  {
    FirstSignal(procs, keywords, linux, r, targets, force, exits, batches, pid);
    forall i | 0 <= i < |procs| { InBucketIs(procs[i], keywords, linux, r, targets); }
    hide RunLog; hide Batches; hide InBucket; hide Ours; hide Plain;
  }

  lemma FirstSignal(procs: seq<Proc>, keywords: seq<Keyword>, linux: bool, r: Resolver, targets: seq<string>,
                    force: bool, exits: (nat, int) -> bool, batches: seq<seq<int>>, pid: int)
    requires |keywords| >= 2 && Batches(batches, procs, Buckets(keywords), linux, r, targets)
    ensures (if force then Kill(pid) else Terminate(pid)) in RunLog(batches, force, exits)
            <==> Hit(pid, procs, keywords, linux, r, targets)
  {
    hide *;
    RunSignals(batches, force, exits, pid);
    SentFirst(batches, force, exits, pid);
    HitBuckets(pid, procs, keywords, linux, r, targets);
    BatchHits(batches, procs, keywords, linux, r, targets, 0, pid);
    BatchHits(batches, procs, keywords, linux, r, targets, 1, pid);
    BatchHits(batches, procs, keywords, linux, r, targets, 2, pid);
  }

  lemma SentFirst(batches: seq<seq<int>>, force: bool, exits: (nat, int) -> bool, pid: int)
    ensures (if force then SentKill(batches, force, exits, pid) else SentTerm(batches, force, pid))
            <==> exists b | 0 <= b < |batches| :: pid in batches[b]
  {
  }

  lemma BatchHits(batches: seq<seq<int>>, procs: seq<Proc>, keywords: seq<Keyword>, linux: bool, r: Resolver,
                  targets: seq<string>, b: nat, pid: int)
    requires |keywords| >= 2 && Batches(batches, procs, Buckets(keywords), linux, r, targets) && b < 3
    ensures |batches| == 3 && (pid in batches[b] <==> Hit(pid, procs, Buckets(keywords)[b], linux, r, targets))
  {
    hide Hit;
    assert BatchOf(batches[b], procs, Buckets(keywords)[b], linux, r, targets);
  }

  ghost predicate RayProcess(p: Proc, keywords: seq<Keyword>, linux: bool) {
    exists k | 0 <= k < |keywords| :: IsRay(p, keywords[k], linux)
  }

  /** What counts as another cluster's: of each pid the first entry that is a Ray process, if its command line carries an
      address, and that is no target's. */
  lemma ForeignIff(procs: seq<Proc>, i: nat, keywords: seq<Keyword>, linux: bool, r: Resolver, targets: seq<string>)
    requires i < |procs| && Plain(keywords)
    ensures ForeignAt(procs, i, keywords, linux, r, targets)
            <==> RayProcess(procs[i], keywords, linux)
                 && (forall j | 0 <= j < i && procs[j].pid == procs[i].pid :: !RayProcess(procs[j], keywords, linux))
                 && exists v :: Carries(procs[i].cmdline, v)
                                && forall t | 0 <= t < |targets| :: Normalize(r, v) != Normalize(r, targets[t])
  {
    forall j | 0 <= j <= i { AnyIs(procs[j], keywords, linux); }
    CarriedNone(procs[i], r, targets);
    hide MatchesAny; hide RayProcess; hide ExtractAddress; hide AnySame; hide Carries; hide Normalize;
  }

  lemma AnyIs(p: Proc, keywords: seq<Keyword>, linux: bool)
    requires Plain(keywords)
    ensures MatchesAny(p, keywords, linux) <==> RayProcess(p, keywords, linux)
  {
    forall k | 0 <= k < |keywords| { MatchesIs(p, keywords[k], linux); }
    hide Matches; hide IsRay;
  }

  lemma CarriedNone(p: Proc, r: Resolver, targets: seq<string>)
    ensures ExtractAddress(p.cmdline).Some? && !AnySame(r, ExtractAddress(p.cmdline).value, targets)
            <==> exists v :: Carries(p.cmdline, v)
                             && forall t | 0 <= t < |targets| :: Normalize(r, v) != Normalize(r, targets[t])
  {
    forall v { ExtractsWhatIsCarried(p.cmdline, v); }
    hide ExtractAddress; hide Carries; hide Normalize;
    if v :| Carries(p.cmdline, v) && forall t | 0 <= t < |targets| :: Normalize(r, v) != Normalize(r, targets[t]) {
      assert ExtractAddress(p.cmdline) == Some(v);
      forall t | 0 <= t < |targets| ensures !SameAddress(r, v, targets[t]) {}
    }
    var address := ExtractAddress(p.cmdline);
    if address.Some? && !AnySame(r, address.value, targets) {
      forall t | 0 <= t < |targets| ensures Normalize(r, address.value) != Normalize(r, targets[t]) {
        assert !SameAddress(r, address.value, targets[t]);
      }
      assert Carries(p.cmdline, address.value);
    }
  }

  // ---------------------------------------------------------------- a GCS server of the cluster is stopped

  lemma StartsPlus(p: string, rest: string)
    ensures StartsWith(p + rest, p)
  {
  }

  lemma GivenInWord(cmdline: seq<string>, name: string, i: nat, v: string)
    requires i < |cmdline| && cmdline[i] == "--" + name + "=" + v
    requires forall j | 0 <= j < i :: cmdline[j] != "--" + name && !StartsWith(cmdline[j], "--" + name + "=")
    ensures Given(cmdline, name, v)
  {
    var prefix := "--" + name;
    assert GivenAt(cmdline, prefix, i, v) by { assert cmdline[i] == prefix + "=" + v; }
    forall j: nat, u | j < i ensures !GivenAt(cmdline, prefix, j, u) {
      StartsPlus(prefix + "=", u);
    }
  }

  lemma NotGivenByWords(cmdline: seq<string>, name: string, v: string)
    requires Without(cmdline, name)
    ensures !Given(cmdline, name, v)
  {
    forall i: nat, u ensures !GivenAt(cmdline, "--" + name, i, u) && !GivenAt(cmdline, "-" + name, i, u) {
      if i < |cmdline| {
        StartsPlus("--" + name + "=", u);
        StartsPlus("-" + name + "=", u);
      }
    }
  }

  /** Two texts that differ in their k-th character. */
  ghost predicate Differ(a: string, b: string, k: nat) {
    k < |a| && k < |b| && a[k] != b[k]
  }

  lemma NoOption(word: string, name: string, k: nat, j: nat)
    requires Differ(word, "--" + name, k) && Differ(word, "-" + name, j)
    ensures word != "--" + name && !StartsWith(word, "--" + name + "=")
    ensures word != "-" + name && !StartsWith(word, "-" + name + "=")
  {
    var long, short := "--" + name, "-" + name;
    StartsAt(word, long + "=", k);
    StartsAt(word, short + "=", j);
  }

  function ServerLine(exe: string, host: string, port: string): seq<string> {
    [exe, OptionWord("node-ip-address", host), OptionWord("gcs_server_port", port)]
  }

  function OptionWord(name: string, v: string): string {
    "--" + name + "=" + v
  }

  lemma OptionWordAt(name: string, v: string, k: nat)
    requires k < |name|
    ensures |OptionWord(name, v)| > k + 2 && OptionWord(name, v)[k + 2] == name[k]
    ensures OptionWord(name, v)[0] == '-' && OptionWord(name, v)[1] == '-'
  {
  }

  lemma ServerWords(exe: string, host: string, port: string)
    requires exe != "" && exe[0] != '-'
    ensures var line := ServerLine(exe, host, port);
            forall i, name | 0 <= i < 3 && name in ["gcs-address", "ray_address", "address"] ::
              && line[i] != "--" + name && !StartsWith(line[i], "--" + name + "=")
              && line[i] != "-" + name && !StartsWith(line[i], "-" + name + "=")
  {
    var line := ServerLine(exe, host, port);
    OptionWordAt("node-ip-address", host, 0);
    OptionWordAt("gcs_server_port", port, 0);
    OptionWordAt("gcs_server_port", port, 3);
    hide OptionWord;
    forall i, name | 0 <= i < 3 && name in ["gcs-address", "ray_address", "address"]
      ensures line[i] != "--" + name && !StartsWith(line[i], "--" + name + "=")
      ensures line[i] != "-" + name && !StartsWith(line[i], "-" + name + "=")
    {
      if i == 0 {
        assert Differ(exe, "--" + name, 0) && Differ(exe, "-" + name, 0);
        NoOption(exe, name, 0, 0);
      } else {
        assert Differ(line[i], "-" + name, 1);
        var k := if i == 2 && name == "gcs-address" then 5 else 2;
        assert Differ(line[i], "--" + name, k);
        NoOption(line[i], name, k, 1);
      }
    }
  }

  lemma NoJava(exe: string, host: string, port: string, v: string)
    requires exe != "" && exe[0] != '-'
    ensures !JavaGiven(ServerLine(exe, host, port), "ray.address", v)
  {
    var line := ServerLine(exe, host, port);
    assert ("-Dray.address=" + v)[0] == '-' && ("-Dray.address=" + v)[1] == 'D';
    OptionWordAt("node-ip-address", host, 0);
    OptionWordAt("gcs_server_port", port, 0);
    hide OptionWord;
    assert line[1][1] == '-' && line[2][1] == '-';
  }

  lemma FirstDiffers(word: string, name: string, k: nat)
    requires Differ(word, "--" + name, k)
    ensures word != "--" + name && !StartsWith(word, "--" + name + "=")
  {
    StartsAt(word, "--" + name + "=", k);
  }

  /** No word of the line is the option or starts it. */
  ghost predicate Without(line: seq<string>, name: string) {
    forall j | 0 <= j < |line| ::
      && line[j] != "--" + name && !StartsWith(line[j], "--" + name + "=")
      && line[j] != "-" + name && !StartsWith(line[j], "-" + name + "=")
  }

  lemma WithoutThree(line: seq<string>, name: string)
    requires |line| == 3
    requires forall i | 0 <= i < 3 ::
               && line[i] != "--" + name && !StartsWith(line[i], "--" + name + "=")
               && line[i] != "-" + name && !StartsWith(line[i], "-" + name + "=")
    ensures Without(line, name)
  {
    hide StartsWith;
  }

  lemma ServerNames(line: seq<string>, exe: string, host: string, port: string, name: string, u: string)
    requires line == ServerLine(exe, host, port) && exe != "" && exe[0] != '-'
    requires name in ["gcs-address", "ray_address", "address"]
    ensures !Given(line, name, u)
  {
    ServerWords(exe, host, port);
    hide *;
    ServerLength(exe, host, port);
    WithoutThree(line, name);
    NotGivenByWords(line, name, u);
  }

  lemma ServerLength(exe: string, host: string, port: string)
    ensures |ServerLine(exe, host, port)| == 3
  {
  }

  lemma ThreeNames()
    ensures "gcs-address" in ["gcs-address", "ray_address", "address"]
    ensures "ray_address" in ["gcs-address", "ray_address", "address"]
    ensures "address" in ["gcs-address", "ray_address", "address"]
  {
    var names := ["gcs-address", "ray_address", "address"];
    assert names[0] in names && names[1] in names && names[2] in names;
  }

  lemma NoEarlierShape(line: seq<string>, j: nat, u: string)
    requires !Given(line, "gcs-address", u) && !Given(line, "ray_address", u) && !Given(line, "address", u)
    requires !JavaGiven(line, "ray.address", u) && j < 5
    ensures !Shape(line, j, u)
  {
    hide Given; hide JavaGiven; hide Mentioned; hide ServerAt;
  }

  lemma ServerShapeOf(line: seq<string>, host: string, port: string)
    requires Mentioned(line, "gcs_server") && ServerAt(line, host, port)
    ensures Shape(line, 5, BuildAddress(host, port))
  {
    hide Given; hide JavaGiven; hide Mentioned; hide ServerAt; hide BuildAddress;
  }

  lemma ServerHost(exe: string, host: string, port: string)
    requires exe != "" && exe[0] != '-'
    ensures Given(ServerLine(exe, host, port), "node-ip-address", host)
  {
    var line, name := ServerLine(exe, host, port), "node-ip-address";
    assert line[1] == "--" + name + "=" + host && line[0] == exe && |line| == 3;
    assert Differ(exe, "--" + name, 0);
    hide *;
    FirstDiffers(exe, name, 0);
    GivenInWord(line, name, 1, host);
  }

  lemma ServerPort(exe: string, host: string, port: string)
    requires exe != "" && exe[0] != '-'
    ensures Given(ServerLine(exe, host, port), "gcs_server_port", port)
  {
    var line, name := ServerLine(exe, host, port), "gcs_server_port";
    assert line[2] == "--" + name + "=" + port && line[0] == exe && |line| == 3;
    assert Differ(exe, "--" + name, 0);
    OptionWordAt("node-ip-address", host, 0);
    assert Differ(line[1], "--" + name, 2);
    hide *;
    FirstDiffers(exe, name, 0);
    FirstDiffers(line[1], name, 2);
    GivenInWord(line, name, 2, port);
  }

  lemma ServerOptions(exe: string, host: string, port: string)
    requires exe != "" && exe[0] != '-' && OccursIn(exe, "gcs_server")
    requires host != "" && port != "" && port != "0"
    ensures var line := ServerLine(exe, host, port); ServerAt(line, host, port) && Mentioned(line, "gcs_server")
  {
    var line := ServerLine(exe, host, port);
    assert line[0] == exe && |line| == 3;
    ServerHost(exe, host, port);
    ServerPort(exe, host, port);
    hide Given; hide OccursIn; hide ServerLine;
  }

  /** A GCS server carries its own host and port. */
  lemma ServerCarries(exe: string, host: string, port: string)
    requires exe != "" && exe[0] != '-' && OccursIn(exe, "gcs_server")
    requires host != "" && port != "" && port != "0"
    ensures Carries(ServerLine(exe, host, port), BuildAddress(host, port))
  {
    hide *;
    var line := ServerLine(exe, host, port);
    ServerOptions(exe, host, port);
    ServerShapeOf(line, host, port);
    ThreeNames();
    forall j: nat, u | j < 5 ensures !Shape(line, j, u) {
      ServerNames(line, exe, host, port, "gcs-address", u);
      ServerNames(line, exe, host, port, "ray_address", u);
      ServerNames(line, exe, host, port, "address", u);
      NoJava(exe, host, port, u);
      NoEarlierShape(line, j, u);
    }
    CarriedBy(line, 5, BuildAddress(host, port));
  }

  lemma CarriedBy(line: seq<string>, k: nat, v: string)
    requires Shape(line, k, v) && forall j: nat, u | j < k :: !Shape(line, j, u)
    ensures Carries(line, v)
  {
    hide Shape;
  }

  lemma MakeOurs(p: Proc, keywords: seq<Keyword>, linux: bool, r: Resolver, targets: seq<string>, k: nat, v: string,
                 t: nat)
    requires k < |keywords| && IsRay(p, keywords[k], linux)
    requires Carries(p.cmdline, v) && t < |targets| && Normalize(r, v) == Normalize(r, targets[t])
    ensures Ours(p, keywords, linux, r, targets)
  {
    hide IsRay; hide Carries; hide Normalize;
  }

  lemma NamedServer(p: Proc, linux: bool)
    requires OccursIn(p.name, "gcs_server")
    ensures IsRay(p, Keyword("gcs_server", true), linux)
  {
    hide OccursIn;
  }

  /** So a GCS server of a target's host and port is signalled. */
  lemma GcsServerStopped(procs: seq<Proc>, keywords: seq<Keyword>, linux: bool, r: Resolver, targets: seq<string>,
                         force: bool, exits: (nat, int) -> bool, batches: seq<seq<int>>,
                         i: nat, exe: string, host: string, port: string)
    requires |keywords| >= 2 && Plain(keywords) && Batches(batches, procs, Buckets(keywords), linux, r, targets)
    requires keywords[|keywords| - 1] == Keyword("gcs_server", true)
    requires i < |procs| && OccursIn(procs[i].name, "gcs_server") && procs[i].cmdline == ServerLine(exe, host, port)
    requires exe != "" && exe[0] != '-' && OccursIn(exe, "gcs_server") && host != "" && port != "" && port != "0"
    requires BuildAddress(host, port) in targets
    ensures (if force then Kill(procs[i].pid) else Terminate(procs[i].pid)) in RunLog(batches, force, exits)
  {
    hide *;
    var v := BuildAddress(host, port);
    var t :| 0 <= t < |targets| && targets[t] == v;
    ServerCarries(exe, host, port);
    NamedServer(procs[i], linux);
    MakeOurs(procs[i], keywords, linux, r, targets, |keywords| - 1, v, t);
    StopSignals(procs, keywords, linux, r, targets, force, exits, batches, procs[i].pid);
  }

  /** The same with values. */
  lemma GcsServerStoppedExample(keywords: seq<Keyword>, r: Resolver, exits: (nat, int) -> bool, batches: seq<seq<int>>)
    requires |keywords| >= 2 && Plain(keywords) && keywords[|keywords| - 1] == Keyword("gcs_server", true)
    requires var server :=
             Proc(7, "gcs_server", ["gcs_server", "--node-ip-address=10.0.0.1", "--gcs_server_port=6379"]);
             Batches(batches, [server], Buckets(keywords), true, r, ["10.0.0.1:6379"])
    ensures Terminate(7) in RunLog(batches, false, exits)
  {
    var server := Proc(7, "gcs_server", ["gcs_server", "--node-ip-address=10.0.0.1", "--gcs_server_port=6379"]);
    ServerText();
    assert OccursAt("gcs_server", "gcs_server", 0);
    hide Batches; hide RunLog; hide BuildAddress; hide Plain; hide OccursIn; hide ServerLine;
    GcsServerStopped([server], keywords, true, r, ["10.0.0.1:6379"], false, exits, batches, 0, "gcs_server", "10.0.0.1",
      "6379");
  }

  lemma ServerText()
    ensures ["gcs_server", "--node-ip-address=10.0.0.1", "--gcs_server_port=6379"]
            == ServerLine("gcs_server", "10.0.0.1", "6379")
    ensures BuildAddress("10.0.0.1", "6379") == "10.0.0.1:6379" && OccursIn("gcs_server", "gcs_server")
  {
    assert OptionWord("node-ip-address", "10.0.0.1") == "--node-ip-address=10.0.0.1";
    assert OptionWord("gcs_server_port", "6379") == "--gcs_server_port=6379";
    assert OccursAt("gcs_server", "gcs_server", 0);
  }

  // ---------------------------------------------------------------- the totals

  /** The pids of one bucket. */
  ghost function OurPids(procs: seq<Proc>, bucket: seq<Keyword>, linux: bool, r: Resolver,
                         targets: seq<string>): set<int> {
    set i | 0 <= i < |procs| && Ours(procs[i], bucket, linux, r, targets) :: procs[i].pid
  }

  lemma FreshFirst(x: int, s: seq<int>)
    ensures NoRepeats([x] + s) <==> NoRepeats(s) && x !in s
  {
    var all := [x] + s;
    assert all[0] == x && forall i | 0 <= i < |s| :: all[i + 1] == s[i];
    if NoRepeats(all) {
      forall i, j | 0 <= i < j < |s| ensures s[i] != s[j] { assert all[i + 1] != all[j + 1]; }
      forall i | 0 <= i < |s| ensures s[i] != x { assert all[0] != all[i + 1]; }
    }
  }

  lemma SurvivorsCons(pids: seq<int>, exits: int -> bool)
    requires pids != []
    ensures Survivors(pids, exits) == (if exits(pids[0]) then [] else [pids[0]]) + Survivors(pids[1..], exits)
  {
  }

  ghost function InTime(pids: set<int>, inTime: int -> bool): set<int> {
    set p | p in pids && inTime(p)
  }

  ghost function Members(s: seq<int>): set<int> {
    set p | p in s
  }

  lemma MembersCons(s: seq<int>)
    requires s != [] && s[0] !in s[1..]
    ensures Members(s) == {s[0]} + Members(s[1..]) && s[0] !in Members(s[1..])
    ensures |Members(s)| == |Members(s[1..])| + 1
  {
    assert s == [s[0]] + s[1..];
    assert Members(s) == {s[0]} + Members(s[1..]);
  }

  lemma InTimeCons(x: int, rest: set<int>, inTime: int -> bool)
    requires x !in rest
    ensures |InTime({x} + rest, inTime)| == |InTime(rest, inTime)| + (if inTime(x) then 1 else 0)
  {
    assert InTime({x} + rest, inTime) == InTime(rest, inTime) + (if inTime(x) then {x} else {});
  }

  lemma NoMembers(inTime: int -> bool)
    ensures |Members([])| == 0 && |InTime(Members([]), inTime)| == 0 && |Survivors([], inTime)| == 0
  {
    assert Members([]) == {} && InTime(Members([]), inTime) == {};
  }

  lemma {:induction false} MembersInTime(batch: seq<int>, inTime: int -> bool)
    requires NoRepeats(batch)
    ensures |batch| == |Members(batch)|
    ensures |batch| - |Survivors(batch, inTime)| == |InTime(Members(batch), inTime)|
  {
    hide *;
    if batch == [] {
      NoMembers(inTime);
    } else {
      var x, rest := batch[0], batch[1..];
      assert batch == [x] + rest;
      FreshFirst(x, rest);
      MembersInTime(rest, inTime);
      MembersCons(batch);
      InTimeCons(x, Members(rest), inTime);
      SurvivorsCons(batch, inTime);
    }
  }

  lemma OurPidsAre(batch: seq<int>, procs: seq<Proc>, bucket: seq<Keyword>, linux: bool, r: Resolver,
                   targets: seq<string>)
    requires Plain(bucket) && BatchOf(batch, procs, bucket, linux, r, targets)
    ensures OurPids(procs, bucket, linux, r, targets) == Members(batch)
  {
    forall i | 0 <= i < |procs| { InBucketIs(procs[i], bucket, linux, r, targets); }
    hide InBucket; hide Ours; hide Plain; hide NoRepeats;
    var ours := OurPids(procs, bucket, linux, r, targets);
    forall i | 0 <= i < |procs| && Ours(procs[i], bucket, linux, r, targets) ensures procs[i].pid in batch {}
    assert ours <= Members(batch);
    forall k | 0 <= k < |batch| ensures batch[k] in ours {
      assert batch[k] in batch;
      HitIs(batch[k], procs, bucket, linux, r, targets);
    }
    assert Members(batch) <= ours;
  }

  lemma HitIs(pid: int, procs: seq<Proc>, bucket: seq<Keyword>, linux: bool, r: Resolver, targets: seq<string>)
    requires Plain(bucket) && Hit(pid, procs, bucket, linux, r, targets)
    ensures pid in OurPids(procs, bucket, linux, r, targets)
  {
    var i :| 0 <= i < |procs| && procs[i].pid == pid && InBucket(procs[i], bucket, linux, r, targets);
    InBucketIs(procs[i], bucket, linux, r, targets);
    hide InBucket; hide Ours; hide Plain;
  }

  /** A batch: as many as there are pids, and of them as many stopped as exit in time. */
  lemma BatchTotals(batch: seq<int>, procs: seq<Proc>, bucket: seq<Keyword>, linux: bool, r: Resolver,
                    targets: seq<string>, inTime: int -> bool)
    requires Plain(bucket) && BatchOf(batch, procs, bucket, linux, r, targets)
    ensures var ours := OurPids(procs, bucket, linux, r, targets);
            |batch| == |ours| && |batch| - |Survivors(batch, inTime)| == |InTime(ours, inTime)|
  {
    hide *;
    BatchDistinct(batch, procs, bucket, linux, r, targets);
    OurPidsAre(batch, procs, bucket, linux, r, targets);
    MembersInTime(batch, inTime);
  }

  lemma BatchDistinct(batch: seq<int>, procs: seq<Proc>, bucket: seq<Keyword>, linux: bool, r: Resolver,
                      targets: seq<string>)
    requires BatchOf(batch, procs, bucket, linux, r, targets)
    ensures NoRepeats(batch)
  {
    hide Hit; hide NoRepeats;
  }

  lemma TotalsThree(batches: seq<seq<int>>, exits: (nat, int) -> bool)
    requires |batches| == 3
    ensures Found(batches) == |batches[0]| + |batches[1]| + |batches[2]|
    ensures Stopped(batches, exits) == |batches[0]| - |Survivors(batches[0], Within(exits, 0))|
                                       + |batches[1]| - |Survivors(batches[1], Within(exits, 1))|
                                       + |batches[2]| - |Survivors(batches[2], Within(exits, 2))|
  {
    NoTotals(exits);
    hide *;
    var none: seq<seq<int>> := [];
    var one := none + [batches[0]];
    var two := one + [batches[1]];
    LogSnoc(none, batches[0], false, exits);
    LogSnoc(one, batches[1], false, exits);
    LogSnoc(two, batches[2], false, exits);
    assert two + [batches[2]] == batches;
  }

  lemma NoTotals(exits: (nat, int) -> bool)
    ensures Found([]) == 0 && Stopped([], exits) == 0
  {
  }

  /** What the stop reports: the pids of each bucket added up, and those of them that exit within its wait. */
  lemma TotalsAre(procs: seq<Proc>, keywords: seq<Keyword>, linux: bool, r: Resolver, targets: seq<string>,
                  exits: (nat, int) -> bool, batches: seq<seq<int>>)
    requires |keywords| >= 2 && Plain(keywords) && Batches(batches, procs, Buckets(keywords), linux, r, targets)
    ensures var n := |keywords| - 1;
            var first := OurPids(procs, [keywords[0]], linux, r, targets);
            var middle := OurPids(procs, keywords[1..n], linux, r, targets);
            var last := OurPids(procs, [keywords[n]], linux, r, targets);
            && Found(batches) == |first| + |middle| + |last|
            && Stopped(batches, exits)
               == |InTime(first, p => exits(0, p))| + |InTime(middle, p => exits(1, p))|
                 + |InTime(last, p => exits(2, p))|
  {
    var n := |keywords| - 1;
    BucketBatches(procs, keywords, linux, r, targets, batches);
    TotalsThree(batches, exits);
    hide Found; hide Stopped; hide Survivors; hide Batches; hide OurPids; hide BatchOf;
    BatchTotals(batches[0], procs, [keywords[0]], linux, r, targets, Within(exits, 0));
    BatchTotals(batches[1], procs, keywords[1..n], linux, r, targets, Within(exits, 1));
    BatchTotals(batches[2], procs, [keywords[n]], linux, r, targets, Within(exits, 2));
    InTimeIs(OurPids(procs, [keywords[0]], linux, r, targets), exits, 0);
    InTimeIs(OurPids(procs, keywords[1..n], linux, r, targets), exits, 1);
    InTimeIs(OurPids(procs, [keywords[n]], linux, r, targets), exits, 2);
  }

  lemma InTimeIs(pids: set<int>, exits: (nat, int) -> bool, b: nat)
    ensures InTime(pids, Within(exits, b)) == InTime(pids, p => exits(b, p))
  {
  }

  lemma BucketBatches(procs: seq<Proc>, keywords: seq<Keyword>, linux: bool, r: Resolver, targets: seq<string>,
                      batches: seq<seq<int>>)
    requires |keywords| >= 2 && Plain(keywords) && Batches(batches, procs, Buckets(keywords), linux, r, targets)
    ensures var n := |keywords| - 1;
            && |batches| == 3 && Plain([keywords[0]]) && Plain(keywords[1..n]) && Plain([keywords[n]])
            && BatchOf(batches[0], procs, [keywords[0]], linux, r, targets)
            && BatchOf(batches[1], procs, keywords[1..n], linux, r, targets)
            && BatchOf(batches[2], procs, [keywords[n]], linux, r, targets)
  {
    hide BatchOf; hide HasNo;
    var n, b := |keywords| - 1, Buckets(keywords);
    assert b[0] == [keywords[0]] && b[1] == keywords[1..n] && b[2] == [keywords[n]];
  }
}
