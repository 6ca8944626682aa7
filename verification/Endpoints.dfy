/** From the configuration file to the address a client connects to: what a provider listens on, what it
    publishes, and what CallMethod makes of the published string. */
module Endpoints {
  import opened Wrappers
  import opened Bytes
  import opened Ini
  import Discovery
  import Registry

  const COLON: Byte := 58
  const PLUS: Byte := 43
  const MINUS: Byte := 45
  const TWO_16: nat := 0x1_0000

  // ---------- std::stoi ----------

  predicate IsSpace(b: Byte)
  {
    b == SPACE || 9 <= b <= 13
  }

  predicate IsDigit(b: Byte)
  {
    48 <= b <= 57
  }

  function SkipSpace(s: Text): Text
  {
    if s != [] && IsSpace(s[0]) then SkipSpace(s[1..]) else s
  }

  function LeadingDigits(s: Text): (ds: Text)
    ensures forall i :: 0 <= i < |ds| ==> IsDigit(ds[i])
  {
    if s != [] && IsDigit(s[0]) then [s[0]] + LeadingDigits(s[1..]) else []
  }

  function DigitValue(b: Byte): nat
    requires IsDigit(b)
  {
    var n: int := b;
    n - 48
  }

  function Value(ds: Text): nat
    requires forall i :: 0 <= i < |ds| ==> IsDigit(ds[i])
  {
    if ds == [] then 0 else Value(ds[..|ds| - 1]) * 10 + DigitValue(ds[|ds| - 1])
  }

  /** None stands for invalid_argument and out_of_range. */
  function Stoi(s: Text): (r: Option<int>)
    ensures r.Some? ==> -0x8000_0000 <= r.value < 0x8000_0000
  {
    var t := SkipSpace(s);
    var negative := t != [] && t[0] == MINUS;
    var u := if t != [] && (t[0] == MINUS || t[0] == PLUS) then t[1..] else t;
    var ds := LeadingDigits(u);
    var v: int := if negative then 0 - Value(ds) else Value(ds);
    if ds == [] || v < -0x8000_0000 || v >= 0x8000_0000 then None else Some(v)
  }

  function Decimal(n: nat): (ds: Text)
    ensures ds != [] && forall i :: 0 <= i < |ds| ==> IsDigit(ds[i])
  {
    if n < 10 then [48 + n] else Decimal(n / 10) + [48 + n % 10]
  }

  lemma {:induction false} DecimalValue(n: nat)
    ensures Value(Decimal(n)) == n
  {
    if n >= 10 {
      DecimalValue(n / 10);
      assert Decimal(n)[..|Decimal(n)| - 1] == Decimal(n / 10);
    }
  }

  lemma {:induction false} AllLeading(ds: Text)
    requires forall i :: 0 <= i < |ds| ==> IsDigit(ds[i])
    ensures LeadingDigits(ds) == ds
  {
    if ds != [] {
      AllLeading(ds[1..]);
    }
  }

  /** Reading back a printed number. */
  lemma StoiOfDecimal(n: nat)
    requires n < 0x8000_0000
    ensures Stoi(Decimal(n)) == Some(n)
  {
    assert IsDigit(Decimal(n)[0]);
    AllLeading(Decimal(n));
    DecimalValue(n);
  }

  /** The value of decimal digits, place by place. */
  function Places(ds: Text): nat
    requires forall i :: 0 <= i < |ds| ==> 48 <= ds[i] <= 57
  {
    if ds == [] then 0 else DigitAt(ds[0], |ds| - 1) + Places(ds[1..])
  }

  /** A digit with n places behind it. */
  function DigitAt(b: Byte, n: nat): nat
    requires 48 <= b <= 57
  {
    if n == 0 then b - 48 else 10 * DigitAt(b, n - 1)
  }

  lemma {:induction false} PlacesSnoc(ds: Text, b: Byte)
    requires (forall i :: 0 <= i < |ds| ==> 48 <= ds[i] <= 57) && 48 <= b <= 57
    ensures Places(ds + [b]) == 10 * Places(ds) + (b - 48)
  {
    if ds == [] {
      assert ([] + [b])[1..] == [];
    } else {
      PlacesSnoc(ds[1..], b);
      assert (ds + [b])[1..] == ds[1..] + [b];
      assert DigitAt(ds[0], |ds|) == 10 * DigitAt(ds[0], |ds| - 1);
    }
  }

  lemma {:induction false} ValueIsPlaces(ds: Text)
    requires forall i :: 0 <= i < |ds| ==> IsDigit(ds[i])
    ensures Value(ds) == Places(ds)
  {
    if ds != [] {
      var init := ds[..|ds| - 1];
      ValueIsPlaces(init);
      PlacesSnoc(init, ds[|ds| - 1]);
      assert init + [ds[|ds| - 1]] == ds;
    }
  }

  /** A text that begins with white space, a sign or none, and digits, in this way. */
  predicate IsNumber(s: Text, a: Text, sign: Text, ds: Text, rest: Text)
  {
    && s == a + sign + ds + rest
    && (forall i :: 0 <= i < |a| ==> a[i] in {9, 10, 11, 12, 13, 32})
    && (sign == [] || sign == [43] || sign == [45])
    && ds != [] && (forall i :: 0 <= i < |ds| ==> 48 <= ds[i] <= 57)
    && (rest != [] ==> !(48 <= rest[0] <= 57))
  }

  lemma {:induction false} SpaceSkipped(a: Text, t: Text)
    requires (forall i :: 0 <= i < |a| ==> a[i] in {9, 10, 11, 12, 13, 32}) && t != [] && !IsSpace(t[0])
    ensures SkipSpace(a + t) == t
  {
    if a == [] {
      assert a + t == t;
    } else {
      SpaceSkipped(a[1..], t);
      assert (a + t)[1..] == a[1..] + t;
    }
  }

  lemma {:induction false} DigitsTaken(ds: Text, rest: Text)
    requires (forall i :: 0 <= i < |ds| ==> IsDigit(ds[i])) && (rest != [] ==> !IsDigit(rest[0]))
    ensures LeadingDigits(ds + rest) == ds
  {
    if ds == [] {
      assert ds + rest == rest;
    } else {
      DigitsTaken(ds[1..], rest);
      assert (ds + rest)[1..] == ds[1..] + rest;
    }
  }

  lemma {:induction false} SplitSpace(s: Text) returns (a: Text)
    ensures s == a + SkipSpace(s) && (forall i :: 0 <= i < |a| ==> a[i] in {9, 10, 11, 12, 13, 32})
  {
    if s != [] && IsSpace(s[0]) {
      var rest := SplitSpace(s[1..]);
      assert SkipSpace(s) == SkipSpace(s[1..]);
      hide SkipSpace;
      a := [s[0]] + rest;
      assert s == [s[0]] + s[1..];
    } else {
      a := [];
    }
  }

  lemma {:induction false} SplitDigits(s: Text) returns (rest: Text)
    ensures s == LeadingDigits(s) + rest && (rest != [] ==> !IsDigit(rest[0]))
  {
    if s != [] && IsDigit(s[0]) {
      rest := SplitDigits(s[1..]);
      assert s == [s[0]] + s[1..];
    } else {
      rest := s;
    }
  }

  lemma NumberIsRead(s: Text, a: Text, sign: Text, ds: Text, rest: Text)
    requires IsNumber(s, a, sign, ds, rest)
    ensures var v: int := if sign == [45] then 0 - Places(ds) else Places(ds);
            Stoi(s) == if -0x8000_0000 <= v < 0x8000_0000 then Some(v) else None
  {
    hide SkipSpace, LeadingDigits, Value, Places;
    var t := sign + ds + rest;
    assert s == a + t;
    assert t[0] == (if sign == [] then ds[0] else sign[0]);
    SpaceSkipped(a, t);
    assert sign != [] ==> t[1..] == ds + rest;
    assert sign == [] ==> t == ds + rest;
    DigitsTaken(ds, rest);
    ValueIsPlaces(ds);
  }

  /** The number at the front of a text. */
  ghost predicate BeginsWith(s: Text, v: int)
  {
    exists a, sign, ds, rest ::
      IsNumber(s, a, sign, ds, rest) && v == if sign == [45] then 0 - Places(ds) else Places(ds)
  }

  lemma FourParts(a: Text, sign: Text, ds: Text, rest: Text)
    ensures a + (sign + (ds + rest)) == a + sign + ds + rest
  {
  }

  lemma ReadNumberIsThere(s: Text, v: int)
    requires Stoi(s) == Some(v)
    ensures BeginsWith(s, v)
  {
    hide SkipSpace, LeadingDigits, Value, Places;
    var a := SplitSpace(s);
    var t := SkipSpace(s);
    var sign: Text := if t != [] && (t[0] == 45 || t[0] == 43) then [t[0]] else [];
    var u := if sign == [] then t else t[1..];
    var ds := LeadingDigits(u);
    var rest := SplitDigits(u);
    ValueIsPlaces(ds);
    assert ds != [] && v == if sign == [45] then 0 - Places(ds) else Places(ds);
    hide Stoi;
    assert t == sign + u;
    FourParts(a, sign, ds, rest);
    assert IsNumber(s, a, sign, ds, rest);
  }

  /** For every text: stoi gets the number that the text begins with, after white space, when there is one and it fits
      32 bits; whatever follows the digits is ignored. */
  lemma StoiIff(s: Text, v: int)
    ensures Stoi(s) == Some(v) <==> -0x8000_0000 <= v < 0x8000_0000 && BeginsWith(s, v)
  {
    hide Stoi, BeginsWith;
    if Stoi(s) == Some(v) {
      ReadNumberIsThere(s, v);
    }
    if BeginsWith(s, v) {
      ThereIsRead(s, v);
    }
  }

  lemma ThereIsRead(s: Text, v: int)
    requires BeginsWith(s, v)
    ensures Stoi(s) == if -0x8000_0000 <= v < 0x8000_0000 then Some(v) else None
  {
    hide Stoi, Places;
    var a, sign, ds, rest :| IsNumber(s, a, sign, ds, rest) && v == if sign == [45] then 0 - Places(ds) else Places(ds);
    NumberIsRead(s, a, sign, ds, rest);
  }

  // ---------- RpcConfig ----------

  /** boost::any as the configuration uses it. */
  datatype Any = Str(s: Text) | Int(i: int) | Other

  type Config = map<Text, Any>

  /** get<std::string>: the empty string when the key is missing or holds something else. */
  function GetString(c: Config, key: Text): Text
  {
    if key in c && c[key].Str? then c[key].s else []
  }

  /** get<int>: zero when the key is missing or holds neither an int nor a string; stoi may throw. */
  function GetInt(c: Config, key: Text): Option<int>
  {
    if key !in c || c[key].Other? then Some(0)
    else if c[key].Int? then Some(c[key].i)
    else Stoi(c[key].s)
  }

  function IpKey(): Text { Ascii("rpc_server_ip") }
  function PortKey(): Text { Ascii("rpc_server_port") }

  // ---------- the two ends ----------

  datatype Endpoint = Endpoint(ip: Text, port: nat)

  /** What the example provider listens on: the port goes through get<int> and a cast to uint16_t. */
  function ListenEndpoint(c: Config): Option<Endpoint>
  {
    match GetInt(c, PortKey())
    case None => None
    case Some(x) => Some(Endpoint(GetString(c, IpKey()), x % TWO_16))
  }

  /** What Provide::run publishes. */
  function PublishedHost(c: Config): Text
  {
    GetString(c, IpKey()) + [COLON] + GetString(c, PortKey())
  }

  /** What CallMethod connects to; None when it fails or stoi throws. */
  function ConnectEndpoint(host: Text): Option<Endpoint>
  {
    if host == [] then None
    else
      match Find(host, COLON)
      case None => None
      case Some(pos) =>
        match Stoi(host[pos + 1..])
        case None => None
        case Some(x) => Some(Endpoint(host[..pos], x % TWO_16))
  }

  /** Where the provider listens: a text is read as a number, a missing port is 0, and only 16 bits count. */
  lemma ListensWhere(c: Config)
    ensures PortKey() !in c ==> ListenEndpoint(c) == Some(Endpoint(GetString(c, IpKey()), 0))
    ensures PortKey() in c && c[PortKey()].Other? ==> ListenEndpoint(c) == Some(Endpoint(GetString(c, IpKey()), 0))
    ensures PortKey() in c && c[PortKey()].Int? ==>
              ListenEndpoint(c) == Some(Endpoint(GetString(c, IpKey()), c[PortKey()].i % 65536))
    ensures PortKey() in c && c[PortKey()].Str? ==>
              var x := Stoi(c[PortKey()].s);
              ListenEndpoint(c) == if x.None? then None else Some(Endpoint(GetString(c, IpKey()), x.value % 65536))
  {
    hide Stoi, IpKey;
  }

  /** A port in decimal, at both ends. */
  lemma DecimalPort(ip: Text, port: nat)
    requires port < 65536 && COLON !in ip
    ensures ListenEndpoint(map[IpKey() := Str(ip), PortKey() := Str(Decimal(port))]) == Some(Endpoint(ip, port))
    ensures ConnectEndpoint(ip + Ascii(":") + Decimal(port)) == Some(Endpoint(ip, port))
  {
    hide Stoi, IpKey, PortKey, Ascii, Decimal, PlainKey, ConnectEndpoint;
    KeysArePlain();
    StoiOfDecimal(port);
    ColonIs();
    HostTakenApart(ip, Decimal(port));
  }

  lemma ColonIs()
    ensures Ascii(":") == [COLON]
  {
  }

  lemma HostTakenApart(ip: Text, port: Text)
    requires COLON !in ip
    ensures ConnectEndpoint(ip + [COLON] + port) ==
            if Stoi(port).None? then None else Some(Endpoint(ip, Stoi(port).value % 65536))
  {
    hide Stoi, Find;
    FindAfter(ip, COLON, port);
    var host := ip + [COLON] + port;
    assert host[..|ip|] == ip && host[|ip| + 1..] == port;
  }

  /** For every configuration: the client reaches the address the provider listens on exactly when the ip has
      no colon and the port is stored as a text that stoi accepts. */
  lemma EndpointsAgreeIff(c: Config)
    ensures ListenEndpoint(c).Some? && ConnectEndpoint(PublishedHost(c)) == ListenEndpoint(c)
            <==> COLON !in GetString(c, IpKey()) && PortKey() in c && c[PortKey()].Str? && Stoi(c[PortKey()].s).Some?
  {
    assert Stoi([]) == None;
    hide Stoi;
    var ip, port, host := GetString(c, IpKey()), GetString(c, PortKey()), PublishedHost(c);
    FindAfter(ip, COLON, port);
    var pos := Find(host, COLON).value;
    assert pos == |ip| ==> host[..pos] == ip && host[pos + 1..] == port;
    assert COLON !in host[..pos];
  }

  /** An ip with a colon in it: the provider listens, and no client can connect. */
  lemma ColonIsMisread()
    ensures var c := map[IpKey() := Str([COLON, COLON, 49]), PortKey() := Str([56, 48])];
            ListenEndpoint(c) == Some(Endpoint([COLON, COLON, 49], 80)) && ConnectEndpoint(PublishedHost(c)) == None
  {
    hide Ascii;
    KeysArePlain();
    assert Decimal(80) == [56, 48];
    StoiOfDecimal(80);
    var host: Text := [COLON, COLON, 49, COLON, 56, 48];
    assert host[1..] == [COLON, 49, COLON, 56, 48];
    assert Stoi(host[1..]) == None;
  }

  /** A port stored as an int: the provider listens on it, but publishes the empty text. */
  lemma IntPortIsNotPublished(port: nat)
    requires port < TWO_16
    ensures var c := map[IpKey() := Str([49]), PortKey() := Int(port)];
            ListenEndpoint(c) == Some(Endpoint([49], port)) && ConnectEndpoint(PublishedHost(c)) == None
  {
    hide Ascii;
    KeysArePlain();
    assert [49, COLON][2..] == [];
    assert Stoi([]) == None;
    assert [49, COLON][1..] == [COLON];
  }

  // ---------- from the file to the connection ----------

  function FromItems(items: Items): Config
  {
    map k | k in items :: Str(items[k])
  }

  lemma KeysArePlain()
    ensures PlainKey(IpKey()) && PlainKey(PortKey()) && IpKey() != PortKey()
  {
    assert "rpc_server_ip"[12] == 'p' && "rpc_server_port"[14] == 't';
  }

  /** loadConfigFromFile hands the file to parse as a C string, which ends at the first NUL. */
  function LoadedLines(file: Text): seq<Text>
  {
    Lines(Registry.UpToNul(file))
  }

  function ConfigOf(file: Text): Config
  {
    FromItems(ReadLines(LoadedLines(file), map[]).items)
  }

  /** What the file says about a key: its first binding among the lines that parse gets to. */
  ghost predicate Says(file: Text, key: Text, val: Text)
  {
    FirstBound(Understood(LoadedLines(file)), key, val)
  }

  lemma {:induction false} LinesComeFromText(text: Text, i: nat, b: Byte)
    requires i < |Lines(text)| && b in Lines(text)[i]
    ensures b in text
    decreases |text|
  {
    if Find(text, LF).Some? && i > 0 {
      LinesComeFromText(text[Find(text, LF).value + 1..], i - 1, b);
    }
  }

  lemma InTheMiddle(a: Text, w: Text, rest: Text, b: Byte)
    requires b in w
    ensures b in a + w + rest
  {
    var i :| 0 <= i < |w| && w[i] == b;
    assert (a + w + rest)[|a| + i] == b;
  }

  lemma AssignedFromLine(line: Text, k: Text, v: Text, b: Byte)
    requires b in v
    ensures Assigns(line, k, v) ==> b in line
  {
    hide FirstWord, Comment, Blank, DropLineEnd;
    if left, right :| Splits(line, left, right) && Gives(left, right, k, v) {
      InFirstWord(WithoutEnd(right), v, b);
      EndDropped(right);
      InTheMiddle([], WithoutEnd(right), right[|WithoutEnd(right)|..], b);
      assert [] + WithoutEnd(right) + right[|WithoutEnd(right)|..] == right;
      InTheMiddle(left + [EQUALS], right, [], b);
      assert left + [EQUALS] + right + [] == line;
    }
  }

  lemma InFirstWord(s: Text, w: Text, b: Byte)
    requires FirstWord(s, w) && b in w
    ensures b in s
  {
    var a, rest :| IsSplit(s, a, w, rest);
    InTheMiddle(a, w, rest, b);
  }

  lemma EndDropped(s: Text)
    ensures WithoutEnd(s) <= s
  {
  }

  /** No value from a file has a NUL in it. */
  lemma ValuesHaveNoNul(file: Text, key: Text, val: Text)
    requires Says(file, key, val)
    ensures 0 !in val
  {
    hide Assigns, Lines, Registry.UpToNul;
    var lines, good := LoadedLines(file), Understood(LoadedLines(file));
    var i :| 0 <= i < |good| && Assigns(good[i], key, val) && UnboundBefore(good, i, key);
    assert good[i] == lines[i];
    Registry.UpToNulIsPrefix(file);
    if 0 in val {
      AssignedFromLine(lines[i], key, val, 0);
      LinesComeFromText(Registry.UpToNul(file), i, 0);
    }
  }

  /** The configuration holds exactly what the file says. */
  lemma ConfigIsWhatFileSays(file: Text, key: Text, val: Text)
    ensures key in ConfigOf(file) && ConfigOf(file)[key] == Str(val) <==> Says(file, key, val)
  {
    hide Lines, ReadLines, Understood, FirstBound;
    FirstBindingWins(Registry.UpToNul(file), map[]);
  }

  /** The key is bound at most once. */
  lemma ConfiguredString(file: Text, key: Text)
    ensures || Says(file, key, GetString(ConfigOf(file), key))
            || (key !in ConfigOf(file) && GetString(ConfigOf(file), key) == [])
  {
    ConfigIsWhatFileSays(file, key, GetString(ConfigOf(file), key));
  }

  lemma PublishedHasNoNul(file: Text)
    ensures 0 !in PublishedHost(ConfigOf(file))
  {
    hide Says, ConfigOf, IpKey, PortKey;
    ConfiguredString(file, IpKey());
    ConfiguredString(file, PortKey());
    if Says(file, IpKey(), GetString(ConfigOf(file), IpKey())) {
      ValuesHaveNoNul(file, IpKey(), GetString(ConfigOf(file), IpKey()));
    }
    if Says(file, PortKey(), GetString(ConfigOf(file), PortKey())) {
      ValuesHaveNoNul(file, PortKey(), GetString(ConfigOf(file), PortKey()));
    }
  }

  /** Both ends of a configuration file agree on where the provider is. */
  predicate Agree(listening: Option<Endpoint>, host: Text)
  {
    listening.Some? && ConnectEndpoint(host) == listening
  }

  /** For every file, whatever else it holds and however it is laid out: if its first bindings are this ip and this
      port, and they fit the registry, then what is published, stored and read back leads to the endpoint the provider
      listens on exactly when the ip has no colon and stoi accepts the port. */
  lemma ConfiguredAddressSurvives(file: Text, ip: Text, port: Text)
    ensures Says(file, IpKey(), ip) && Says(file, PortKey(), port) && |ip| + |port| <= 126 ==>
              var c := ConfigOf(file);
              && (Agree(ListenEndpoint(c), Registry.ReadBack(PublishedHost(c))) <==> COLON !in ip && Stoi(port).Some?)
              && (Stoi(port).Some? ==> ListenEndpoint(c) == Some(Endpoint(ip, Stoi(port).value % TWO_16)))
  {
    hide Says, ConfigOf, IpKey, PortKey, Stoi, ConnectEndpoint, Registry.ReadBack;
    ConfigIsWhatFileSays(file, IpKey(), ip);
    ConfigIsWhatFileSays(file, PortKey(), port);
    var c := ConfigOf(file);
    EndpointsAgreeIff(c);
    PublishedHasNoNul(file);
    if |PublishedHost(c)| < 128 {
      Registry.HostSurvives(PublishedHost(c));
    }
  }

  lemma {:induction false} UpToNulOfConcat(a: Text, b: Text)
    requires 0 !in a
    ensures Registry.UpToNul(a + b) == a + Registry.UpToNul(b)
  {
    if a == [] {
      assert a + b == b;
    } else {
      assert 0 !in a[1..];
      UpToNulOfConcat(a[1..], b);
      assert (a + b)[1..] == a[1..] + b;
      assert [a[0]] + (a[1..] + Registry.UpToNul(b)) == a + Registry.UpToNul(b);
    }
  }

  /** The layout of default_conf.ini: a comment, the ip, a comment, the port, and anything after that. */
  lemma DefaultLayout(c1: Text, ip: Text, c2: Text, port: Text, rest: Text)
    requires LF !in c1 && 0 !in c1 && LF !in c2 && 0 !in c2
    requires PlainValue(ip) && PlainValue(port) && 0 !in ip && 0 !in port
    ensures var file := ([HASH] + c1 + [LF] + PrintItem(IpKey(), ip))
                        + ([HASH] + c2 + [LF] + PrintItem(PortKey(), port)) + rest;
            Says(file, IpKey(), ip) && Says(file, PortKey(), port)
  {
    KeysArePlain();
    KeysHaveNoNul();
    hide PlainKey, PlainValue, IpKey, PortKey, FirstBound, Understood, Registry.UpToNul;
    var a, b := [HASH] + c1 + [LF] + PrintItem(IpKey(), ip), [HASH] + c2 + [LF] + PrintItem(PortKey(), port);
    UpToNulOfConcat(a + b, rest);
    var tail := Registry.UpToNul(rest);
    assert a + b + tail == a + (b + tail);
    forall key, v
      ensures FirstBound(Understood(Lines(a + (b + tail))), key, v) <==>
              if key == IpKey() then v == ip
              else FirstBound(Understood(Lines(b + tail)), key, v)
    {
      CommentAndItem(c1, IpKey(), ip, b + tail, key, v);
    }
    CommentAndItem(c2, PortKey(), port, tail, PortKey(), port);
  }

  lemma AsciiOfConcat(a: string, b: string)
    ensures Ascii(a + b) == Ascii(a) + Ascii(b)
  {
  }

  lemma KeysAsTexts()
    ensures IpKey() == Ascii("rpc_server_ip") && PortKey() == Ascii("rpc_server_port")
  {
  }

  /** default_conf.ini, with the comments as they may be and whatever follows the port. */
  lemma DefaultConf(c1: Text, c2: Text, rest: Text)
    requires LF !in c1 && 0 !in c1 && LF !in c2 && 0 !in c2
    ensures var file := Ascii("#") + c1 + Ascii("\nrpc_server_ip=192.168.77.136\n#") + c2
                        + Ascii("\nrpc_server_port=8000\n") + rest;
            var c := ConfigOf(file);
            && ListenEndpoint(c) == Some(Endpoint(Ascii("192.168.77.136"), 8000))
            && PublishedHost(c) == Ascii("192.168.77.136:8000")
            && ConnectEndpoint(PublishedHost(c)) == ListenEndpoint(c)
  {
    var ip, port := Ascii("192.168.77.136"), Ascii("8000");
    AddressTexts();
    DefaultText(c1, c2, rest);
    hide *;
    DefaultLayout(c1, ip, c2, port, rest);
    StoiOfDecimal(8000);
    PlainAddress(([HASH] + c1 + [LF] + PrintItem(IpKey(), ip))
                 + ([HASH] + c2 + [LF] + PrintItem(PortKey(), port)) + rest,
                 ip, port);
  }

  /** What a file comes to that says this ip and this port. */
  lemma PlainAddress(file: Text, ip: Text, port: Text)
    requires COLON !in ip && Stoi(port).Some?
    ensures var c := ConfigOf(file);
            Says(file, IpKey(), ip) && Says(file, PortKey(), port) ==>
              && ListenEndpoint(c) == Some(Endpoint(ip, Stoi(port).value % 65536))
              && PublishedHost(c) == ip + [COLON] + port
              && ConnectEndpoint(PublishedHost(c)) == ListenEndpoint(c)
  {
    hide Says, ConfigOf, IpKey, PortKey, Stoi, ConnectEndpoint;
    ConfigIsWhatFileSays(file, IpKey(), ip);
    ConfigIsWhatFileSays(file, PortKey(), port);
    EndpointsAgreeIff(ConfigOf(file));
  }

  lemma DefaultText(c1: Text, c2: Text, rest: Text)
    ensures var ip, port := Ascii("192.168.77.136"), Ascii("8000");
            Ascii("#") + c1 + Ascii("\nrpc_server_ip=192.168.77.136\n#") + c2 + Ascii("\nrpc_server_port=8000\n") + rest
            == ([HASH] + c1 + [LF] + PrintItem(IpKey(), ip)) + ([HASH] + c2 + [LF] + PrintItem(PortKey(), port)) + rest
  {
    hide Ascii, PrintItem;
    FirstItemText();
    SecondItemText();
    AddressTexts();
  }

  lemma FirstItemText()
    ensures Ascii("\nrpc_server_ip=192.168.77.136\n#") == [LF] + PrintItem(IpKey(), Ascii("192.168.77.136")) + [HASH]
  {
    hide *;
    FirstItemKey();
    FirstItemValue();
    FirstItemLine();
    var k, v := IpKey(), Ascii("192.168.77.136");
    AsPrinted(k, v);
    assert ([LF] + k + [EQUALS]) + (v + [LF, HASH]) == [LF] + (k + [EQUALS] + v + [LF]) + [HASH];
  }

  lemma AsPrinted(k: Text, v: Text)
    ensures PrintItem(k, v) == k + [EQUALS] + v + [LF]
  {
  }

  lemma FirstItemLine()
    ensures Ascii("\nrpc_server_ip=192.168.77.136\n#") == Ascii("\nrpc_server_ip=") + Ascii("192.168.77.136\n#")
  {
    AsciiOfConcat("\nrpc_server_ip=", "192.168.77.136\n#");
  }

  lemma FirstItemValue()
    ensures Ascii("192.168.77.136\n#") == Ascii("192.168.77.136") + [LF, HASH]
  {
    AsciiOfConcat("192.168.77.136", "\n#");
  }

  lemma FirstItemKey()
    ensures Ascii("\nrpc_server_ip=") == [LF] + IpKey() + [EQUALS]
  {
    AsciiOfConcat("\n", "rpc_server_ip");
    AsciiOfConcat("\nrpc_server_ip", "=");
  }

  lemma SecondItemText()
    ensures Ascii("\nrpc_server_port=8000\n") == [LF] + PrintItem(PortKey(), Ascii("8000"))
  {
    AsciiOfConcat("\n", "rpc_server_port");
    AsciiOfConcat("\nrpc_server_port", "=");
    AsciiOfConcat("\nrpc_server_port=", "8000");
    AsciiOfConcat("\nrpc_server_port=8000", "\n");
  }

  lemma AddressTexts()
    ensures Ascii("#") == [HASH] && Ascii("8000") == Decimal(8000)
    ensures var ip, port := Ascii("192.168.77.136"), Ascii("8000");
            && PlainValue(ip) && PlainValue(port) && 0 !in ip && 0 !in port && COLON !in ip
            && Ascii("192.168.77.136:8000") == ip + [COLON] + port
  {
    assert Ascii("#") == [HASH];
    hide Ascii, Decimal;
    HostText();
    IpText();
    PortText();
  }

  lemma IpText()
    ensures Ascii("192.168.77.136") == [49, 57, 50, 46, 49, 54, 56, 46, 55, 55, 46, 49, 51, 54]
  {
  }

  lemma PortText()
    ensures Ascii("8000") == [56, 48, 48, 48] == Decimal(8000)
  {
    assert Decimal(8) == [56] && Decimal(80) == [56, 48] && Decimal(800) == [56, 48, 48];
  }

  lemma HostText()
    ensures Ascii("192.168.77.136:8000") == Ascii("192.168.77.136") + [COLON] + Ascii("8000")
  {
    AsciiOfConcat("192.168.77.136", ":8000");
    AsciiOfConcat(":", "8000");
  }

  lemma CommentAndItem(comment: Text, k: Text, w: Text, rest: Text, key: Text, v: Text)
    requires LF !in comment && PlainKey(k) && PlainValue(w)
    ensures FirstBound(Understood(Lines([HASH] + comment + [LF] + PrintItem(k, w) + rest)), key, v) <==>
            if key == k then v == w else FirstBound(Understood(Lines(rest)), key, v)
  {
    var line, item := [HASH] + comment, k + [EQUALS] + w;
    assert LF !in line && LF !in item;
    assert [HASH] + comment + [LF] + PrintItem(k, w) + rest == line + [LF] + (item + [LF] + rest);
    assert Ignored(line) by {
      assert Blank([]) && line == [] + [HASH] + comment;
    }
    hide *;
    FirstLine(line, item + [LF] + rest);
    FirstLine(item, rest);
    IgnoredFirst(line, Lines(item + [LF] + rest), key, v);
    PlainFirst(k, w, Lines(rest), key, v);
  }

  lemma KeysHaveNoNul()
    ensures 0 !in IpKey() && 0 !in PortKey()
  {
    var ip, port := "rpc_server_ip", "rpc_server_port";
    assert forall i :: 0 <= i < |ip| ==> 0 < ip[i] as int < 128;
    assert forall i :: 0 <= i < |port| ==> 0 < port[i] as int < 128;
  }

  /** Every provider publishes what its configuration file says. */
  ghost predicate Configured(s: Registry.System, files: map<nat, Text>)
  {
    forall p :: p in s.publishers ==> p in files && s.publishers[p].host == PublishedHost(ConfigOf(files[p]))
  }

  /** In every run of providers with a configuration file each: a client that looks a method up parses what it gets
      into the endpoint on which a provider of the method, open at that moment, listens by its file, exactly when that
      file has an ip without a colon and a port that stoi accepts. */
  lemma ConfiguredAddressIsCalled(before: seq<Registry.Step>, c: nat, service: Text, name: Text, files: map<nat, Text>)
    returns (p: nat)
    requires Registry.Run(Registry.Empty(), before).Some?
    requires var s := Registry.Run(Registry.Empty(), before).value;
             Configured(s, files) && Registry.Do(s, Registry.Get(c)).Some?
    requires Registry.SlashFree(service) && Registry.SlashFree(name)
    requires var l := Registry.Do(Registry.Run(Registry.Empty(), before).value, Registry.Get(c)).value.lookups[c];
             l.Found? && l.path == Registry.MethodPath(service, name)
    ensures var s, path := Registry.Run(Registry.Empty(), before).value, Registry.MethodPath(service, name);
            && path in s.tree && Registry.Backed(s, path, p, service, name) && p in files
            && var own := ConfigOf(files[p]);
               |PublishedHost(own)| < 128 ==>
                 (Agree(ListenEndpoint(own), Registry.Do(s, Registry.Get(c)).value.lookups[c].host) <==>
                  COLON !in GetString(own, IpKey()) && PortKey() in own && own[PortKey()].Str?
                  && Stoi(own[PortKey()].s).Some?)
  {
    hide Registry.Run, Registry.Do, ListenEndpoint, ConnectEndpoint, ConfigOf, PublishedHost, Registry.ReadBack, Stoi;
    p := Discovery.LookupIsCurrent(before, c, service, name);
    var own := ConfigOf(files[p]);
    EndpointsAgreeIff(own);
    PublishedHasNoNul(files[p]);
    if |PublishedHost(own)| < 128 {
      Registry.HostSurvives(PublishedHost(own));
    }
  }
}
