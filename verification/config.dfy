/** Mapping-list parsing and credential assembly of `src/config.go`: a
    `"local,remote"` string becomes an `AddressPair` tagged with its mode,
    bad strings are dropped, the rtl list comes before the ltr list, and the
    optional password and key file are recorded when their keys exist.

    Reading the YAML file is not modelled: the settings arrive already
    parsed, as maps from dotted key paths to values. */
module Configuration {
  import opened Options
  import opened Net
  import opened Text
  import opened PortForward

  /** A forwarding mapping. The addresses are pointers in the source; a
      failed parse leaves the unresolved ones nil (`None`). */
  datatype AddressPair = AddressPair(remote: Option<TcpAddr>, local: Option<TcpAddr>, mode: ForwardMode)
  {
    /** Both addresses were resolved. */
    predicate Resolved()
    {
      remote.Some? && local.Some?
    }
  }

  /** Why a mapping string was rejected. */
  datatype ParseError =
    | WrongPartCount(got: nat)       // the string did not split into two parts; `got` parts instead
    | InvalidLocal(address: string)  // the local part does not resolve
    | InvalidRemote(address: string) // the remote part does not resolve

  /** `strToAddressPair`'s two results: the pair, filled in as far as the
      parse got, and the error, if any. */
  datatype Parsed = Parsed(pair: AddressPair, err: Option<ParseError>)

  /** `strToAddressPair`: split at commas, demand exactly two parts, and
      resolve the local part and then the remote part. The mode is recorded
      on every path; exactly one comma is needed; the local part is reported
      first when both are bad. */
  function StrToAddressPair(s: string, mode: ForwardMode, resolve: Resolver): (r: Parsed)
    ensures r.pair.mode == mode
    ensures Count(s, ',') != 1 <==> r.err == Some(WrongPartCount(Count(s, ',') + 1))
    ensures r.err.None? ==> r.pair.Resolved()
    ensures Count(s, ',') == 1 ==>
              var k := IndexOf(s, ',');
              var local, remote := resolve(s[..k]), resolve(s[k + 1..]);
              && (local.None? ==> r == Parsed(AddressPair(None, None, mode), Some(InvalidLocal(s[..k]))))
              && (local.Some? && remote.None? ==>
                    r == Parsed(AddressPair(None, local, mode), Some(InvalidRemote(s[k + 1..]))))
              && (local.Some? && remote.Some? ==>
                    r == Parsed(AddressPair(remote, local, mode), None))
  {
    SplitInTwo(s, ',');
    var addresses := Split(s, ',');
    if |addresses| != 2 then
      Parsed(AddressPair(None, None, mode), Some(WrongPartCount(|addresses|)))
    else
      match resolve(addresses[0])
      case None => Parsed(AddressPair(None, None, mode), Some(InvalidLocal(addresses[0])))
      case Some(lAddr) =>
        match resolve(addresses[1])
        case None => Parsed(AddressPair(None, Some(lAddr), mode), Some(InvalidRemote(addresses[1])))
        case Some(rAddr) => Parsed(AddressPair(Some(rAddr), Some(lAddr), mode), None)
  }

  /** `s` parses without error. */
  predicate ParsesOk(s: string, mode: ForwardMode, resolve: Resolver)
  {
    StrToAddressPair(s, mode, resolve).err.None?
  }

  /** Position `j` of a non-empty list is position `j - 1` of its tail. */
  lemma TailIndices(list: seq<string>)
    requires |list| > 0
    ensures forall j :: 1 <= j < |list| ==> list[j] == list[1..][j - 1]
  {
  }

  /** `toAddressPair`: the pairs of the strings that parse, in input order;
      the others are logged and dropped. `ToAddressPairSound` states that
      every pair comes from some input string. */
  function ToAddressPair(list: seq<string>, mode: ForwardMode, resolve: Resolver): (res: seq<AddressPair>)
    ensures |res| <= |list|
    ensures forall i :: 0 <= i < |res| ==> res[i].mode == mode && res[i].Resolved()
    ensures forall j :: 0 <= j < |list| && ParsesOk(list[j], mode, resolve) ==>
              StrToAddressPair(list[j], mode, resolve).pair in res
    ensures |res| == |list| <==> forall j :: 0 <= j < |list| ==> ParsesOk(list[j], mode, resolve)
  {
    if |list| == 0 then []
    else
      var p := StrToAddressPair(list[0], mode, resolve);
      var rest := ToAddressPair(list[1..], mode, resolve);
      TailIndices(list);
      if p.err.None? then [p.pair] + rest else rest
  }

  /** Every pair `toAddressPair` returns is the error-free parse of some
      input string. */
  lemma {:induction false} ToAddressPairSound(list: seq<string>, mode: ForwardMode, resolve: Resolver, i: nat)
    requires i < |ToAddressPair(list, mode, resolve)|
    ensures exists j :: 0 <= j < |list| &&
              StrToAddressPair(list[j], mode, resolve) == Parsed(ToAddressPair(list, mode, resolve)[i], None)
    decreases |list|
  {
    var res := ToAddressPair(list, mode, resolve);
    var rest := ToAddressPair(list[1..], mode, resolve);
    var p := StrToAddressPair(list[0], mode, resolve);
    if p.err.None? && i == 0 {
      assert p == Parsed(res[0], None);
    } else {
      var k := if p.err.None? then i - 1 else i;
      assert res[i] == rest[k];
      ToAddressPairSound(list[1..], mode, resolve, k);
      var j :| 0 <= j < |list[1..]| && StrToAddressPair(list[1..][j], mode, resolve) == Parsed(rest[k], None);
      assert 0 <= j + 1 < |list| && list[j + 1] == list[1..][j];
      assert StrToAddressPair(list[j + 1], mode, resolve) == Parsed(res[i], None);
    }
  }

  /** `toAddressPair` works string by string: the result for a concatenation
      is the concatenation of the results, so input order is kept. */
  lemma {:induction false} ToAddressPairAppend(a: seq<string>, b: seq<string>, mode: ForwardMode, resolve: Resolver)
    ensures ToAddressPair(a + b, mode, resolve) == ToAddressPair(a, mode, resolve) + ToAddressPair(b, mode, resolve)
    decreases |a|
  {
    if |a| == 0 {
      assert a + b == b;
    } else {
      assert (a + b)[1..] == a[1..] + b;
      ToAddressPairAppend(a[1..], b, mode, resolve);
    }
  }

  /** The result for one string: its pair when it parses, nothing otherwise. */
  lemma ToAddressPairSingle(s: string, mode: ForwardMode, resolve: Resolver)
    ensures ToAddressPair([s], mode, resolve)
              == (if ParsesOk(s, mode, resolve) then [StrToAddressPair(s, mode, resolve).pair] else [])
  {
    assert [s][1..] == [];
  }

  /** The parsed `server` section. */
  datatype ServerConfig = ServerConfig(addr: string, user: string, password: Option<string>, keyfile: Option<string>)

  /** The configuration the supervisor starts from. */
  datatype Config = Config(test: string, mappings: seq<AddressPair>, server: ServerConfig)

  /** The YAML document as viper sees it: scalar values and string lists,
      both keyed by dotted path. */
  datatype Settings = Settings(scalars: map<string, string>, lists: map<string, seq<string>>)

  /** `viper.GetString`: the value, or "" for a missing key. */
  function GetString(st: Settings, key: string): string
  {
    if key in st.scalars then st.scalars[key] else ""
  }

  /** `viper.GetStringSlice`: the list, or empty for a missing key. */
  function GetStringSlice(st: Settings, key: string): seq<string>
  {
    if key in st.lists then st.lists[key] else []
  }

  /** `viper.InConfig` followed by `viper.GetString` when present. */
  function OptionalString(st: Settings, key: string): (v: Option<string>)
    ensures v.Some? <==> key in st.scalars
    ensures v.Some? ==> v.value == st.scalars[key]
  {
    if key in st.scalars then Some(GetString(st, key)) else None
  }

  const RtlKey := "mappings.rtl"
  const LtrKey := "mappings.ltr"
  const PasswordKey := "server.password"
  const KeyfileKey := "server.keyfile"

  /** Every Rtl pair of `rtl + ltr` precedes every Ltr pair, when `rtl`
      holds only Rtl pairs and `ltr` only Ltr ones. */
  lemma ConcatKeepsModesApart(rtl: seq<AddressPair>, ltr: seq<AddressPair>)
    requires forall i :: 0 <= i < |rtl| ==> rtl[i].mode == Rtl && rtl[i].Resolved()
    requires forall i :: 0 <= i < |ltr| ==> ltr[i].mode == Ltr && ltr[i].Resolved()
    ensures var m := rtl + ltr;
            && (forall i :: 0 <= i < |m| ==> m[i].Resolved() && (m[i].mode == Rtl || m[i].mode == Ltr))
            && (forall i, j :: 0 <= i < j < |m| && m[j].mode == Rtl ==> m[i].mode == Rtl)
            && m[..|rtl|] == rtl
  {
    var m := rtl + ltr;
    assert forall i :: |rtl| <= i < |m| ==> m[i] == ltr[i - |rtl|];
    assert m[..|rtl|] == rtl;
  }

  /** The mapping and credential assembly at the end of `readConfig`. */
  function ReadConfig(st: Settings, resolve: Resolver): (c: Config)
    ensures forall i :: 0 <= i < |c.mappings| ==>
              c.mappings[i].Resolved() && (c.mappings[i].mode == Rtl || c.mappings[i].mode == Ltr)
    ensures forall i, j :: 0 <= i < j < |c.mappings| && c.mappings[j].mode == Rtl ==> c.mappings[i].mode == Rtl
    ensures |c.mappings| <= |GetStringSlice(st, RtlKey)| + |GetStringSlice(st, LtrKey)|
    ensures c.server.password.Some? <==> PasswordKey in st.scalars
    ensures c.server.password.Some? ==> c.server.password.value == st.scalars[PasswordKey]
    ensures c.server.keyfile.Some? <==> KeyfileKey in st.scalars
    ensures c.server.keyfile.Some? ==> c.server.keyfile.value == st.scalars[KeyfileKey]
    ensures c.server.addr == GetString(st, "server.addr") && c.server.user == GetString(st, "server.user")
  {
    var rtl := ToAddressPair(GetStringSlice(st, RtlKey), Rtl, resolve);
    var ltr := ToAddressPair(GetStringSlice(st, LtrKey), Ltr, resolve);
    var mappings := rtl + ltr;
    ConcatKeepsModesApart(rtl, ltr);
    Config(
      GetString(st, "test"),
      mappings,
      ServerConfig(
        GetString(st, "server.addr"),
        GetString(st, "server.user"),
        OptionalString(st, PasswordKey),
        OptionalString(st, KeyfileKey)))
  }

  /** The mapping list splits into the pairs of the rtl strings, in order,
      followed by the pairs of the ltr strings, in order. */
  lemma ReadConfigMappingOrder(st: Settings, resolve: Resolver)
    ensures var m := ReadConfig(st, resolve).mappings;
            var rtl := ToAddressPair(GetStringSlice(st, RtlKey), Rtl, resolve);
            var ltr := ToAddressPair(GetStringSlice(st, LtrKey), Ltr, resolve);
            |m| == |rtl| + |ltr| && m[..|rtl|] == rtl && m[|rtl|..] == ltr
  {
    var rtl := ToAddressPair(GetStringSlice(st, RtlKey), Rtl, resolve);
    var ltr := ToAddressPair(GetStringSlice(st, LtrKey), Ltr, resolve);
    assert (rtl + ltr)[..|rtl|] == rtl;
    assert (rtl + ltr)[|rtl|..] == ltr;
  }
}
