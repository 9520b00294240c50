/** The BGP_GLOBAL and BGP_NEIGHBOR handlers of the APPL_DB BGP managers:
    each turns one table update into the list of FRR commands it hands to
    the configuration manager, and keeps whether BGP has been enabled and
    under which local AS number. A table row is a sequence of (field, value)
    pairs in the order the row lists them; the list a handler pushes is its
    result, None when it pushes nothing. */
module AppBgp {
  import opened SeqLemmas

  datatype Option<T> = None | Some(value: T)

  type Row = seq<(string, string)>

  const DEFAULT_VRF: string := "default"

  function RouterBgp(asn: string): string { "router bgp " + asn }
  function NoRouterBgp(asn: string): string { "no router bgp " + asn }
  function RouterId(id: string): string { "bgp router-id " + id }
  function RemoteAs(nbr: string, asn: string): string { "neighbor " + nbr + " remote-as " + asn }
  function NoNeighbor(nbr: string): string { "no neighbor " + nbr }
  const NO_DEFAULT_IPV4: string := "no bgp default ipv4-unicast"

  // ---------------------------------------------------------------------
  // BGP_GLOBAL
  // ---------------------------------------------------------------------

  /** Where the field loop of AppBgpGlobal.set_handler stands: the two
      fields of the handler, the commands gathered so far, and whether the
      loop gave up on an AS number change. */
  datatype Scan = Scan(enabled: bool, asn: string, cmds: seq<string>, rejected: bool)

  /** One field of the row. */
  function ScanField(s: Scan, field: string, val: string): (t: Scan)
    ensures t.asn != s.asn ==> !s.enabled && t.enabled && field == "local_asn" && t.asn == val
    ensures s.enabled ==> t.enabled && t.asn == s.asn
    ensures t.rejected <==> s.rejected || (s.enabled && field == "local_asn" && val != s.asn)
  {
    if s.rejected then s
    else if field == "local_asn" then
      var s1 := s.(cmds := s.cmds + [RouterBgp(val)]);
      if s.enabled then
        if s.asn != val then s1.(rejected := true) else s1
      else
        s1.(cmds := s1.cmds + [NO_DEFAULT_IPV4], enabled := true, asn := val)
    else if field == "router_id" then
      s.(cmds := s.cmds + [RouterId(val)])
    else s
  }

  /** The whole field loop, from the first field to the last or to the
      AS number change that ends it. */
  function ScanRow(s: Scan, row: Row): (t: Scan)
    ensures s.rejected ==> t == s
    decreases |row|
  {
    if row == [] || s.rejected then s
    else ScanRow(ScanField(s, row[0].0, row[0].1), row[1..])
  }

  /** The command an enabled handler emits for one field that keeps the AS
      number. */
  function FieldLine(field: string, val: string): (ls: seq<string>)
    ensures |ls| <= 1
  {
    if field == "local_asn" then [RouterBgp(val)] else if field == "router_id" then [RouterId(val)] else []
  }

  /** The commands an enabled handler emits for `row` when no field changes
      the AS number: "router bgp" for each local_asn, "bgp router-id" for
      each router_id, in field order. */
  function Lines(row: Row): (ls: seq<string>)
    ensures |ls| <= |row|
  {
    if row == [] then [] else FieldLine(row[0].0, row[0].1) + Lines(row[1..])
  }

  /** No field of `row` is local_asn. */
  predicate NoAsnField(row: Row)
  {
    forall i :: 0 <= i < |row| ==> row[i].0 != "local_asn"
  }

  /** Every local_asn field of `row` carries `asn`. */
  predicate AsnFieldsAre(row: Row, asn: string)
  {
    forall i :: 0 <= i < |row| && row[i].0 == "local_asn" ==> row[i].1 == asn
  }

  /** Once enabled, the handler never changes its AS number or disables BGP. */
  lemma {:induction false} EnabledKeepsAsn(s: Scan, row: Row)
    requires s.enabled
    ensures ScanRow(s, row).enabled && ScanRow(s, row).asn == s.asn
    decreases |row|
  {
    if row != [] && !s.rejected {
      EnabledKeepsAsn(ScanField(s, row[0].0, row[0].1), row[1..]);
    }
  }

  lemma AsnFieldsTail(row: Row, asn: string)
    requires |row| > 0 && AsnFieldsAre(row, asn)
    ensures AsnFieldsAre(row[1..], asn) && (row[0].0 == "local_asn" ==> row[0].1 == asn)
  {
    forall i | 0 <= i < |row[1..]| && row[1..][i].0 == "local_asn"
      ensures row[1..][i].1 == asn
    {
      assert row[1..][i] == row[i + 1];
    }
  }

  lemma NoAsnTail(row: Row)
    requires |row| > 0 && NoAsnField(row)
    ensures NoAsnField(row[1..]) && row[0].0 != "local_asn"
  {
    forall i | 0 <= i < |row[1..]| ensures row[1..][i].0 != "local_asn" {
      assert row[1..][i] == row[i + 1];
    }
  }

  /** Once enabled, a field that keeps the AS number only adds its line. */
  lemma EnabledField(s: Scan, field: string, val: string)
    requires s.enabled && !s.rejected && (field == "local_asn" ==> val == s.asn)
    ensures ScanField(s, field, val) == s.(cmds := s.cmds + FieldLine(field, val))
  {
  }

  /** Once enabled, a row whose local_asn fields all repeat the AS number
      emits exactly its Lines. */
  lemma {:induction false} EnabledSameAsn(s: Scan, row: Row)
    requires s.enabled && !s.rejected && AsnFieldsAre(row, s.asn)
    ensures ScanRow(s, row) == s.(cmds := s.cmds + Lines(row))
    decreases |row|
  {
    if row == [] {
      assert s.cmds + [] == s.cmds;
    } else {
      var (f, v) := row[0];
      EnabledField(s, f, v);
      var t := s.(cmds := s.cmds + FieldLine(f, v));
      AsnFieldsTail(row, s.asn);
      EnabledSameAsn(t, row[1..]);
      AppendAssoc(s.cmds, FieldLine(f, v), Lines(row[1..]));
    }
  }

  /** Once enabled, a local_asn field with another AS number ends the loop
      in rejection, whatever comes before or after it. */
  lemma {:induction false} AsnChangeRejected(s: Scan, row: Row, j: nat)
    requires s.enabled && j < |row| && row[j].0 == "local_asn" && row[j].1 != s.asn
    ensures ScanRow(s, row).rejected
    decreases |row|
  {
    if !s.rejected {
      var t := ScanField(s, row[0].0, row[0].1);
      if j > 0 {
        assert row[1..][j - 1] == row[j];
        AsnChangeRejected(t, row[1..], j - 1);
      }
    }
  }

  /** Before BGP is enabled, a row without local_asn leaves it disabled. */
  lemma {:induction false} MissingAsnStaysDisabled(s: Scan, row: Row)
    requires !s.enabled && NoAsnField(row)
    ensures !ScanRow(s, row).enabled && ScanRow(s, row).rejected == s.rejected
    decreases |row|
  {
    if row != [] && !s.rejected {
      assert NoAsnField(row[1..]) by {
        forall i | 0 <= i < |row[1..]| ensures row[1..][i].0 != "local_asn" {
          assert row[1..][i] == row[i + 1];
        }
      }
      MissingAsnStaysDisabled(ScanField(s, row[0].0, row[0].1), row[1..]);
    }
  }

  /** Before BGP is enabled, a field other than local_asn only adds its line. */
  lemma DisabledField(s: Scan, field: string, val: string)
    requires !s.enabled && !s.rejected && field != "local_asn"
    ensures ScanField(s, field, val) == s.(cmds := s.cmds + FieldLine(field, val))
  {
  }

  /** Before BGP is enabled, fields without local_asn only gather their Lines. */
  lemma {:induction false} DisabledPrefix(s: Scan, pre: Row, rest: Row)
    requires !s.enabled && !s.rejected && NoAsnField(pre)
    ensures ScanRow(s, pre + rest) == ScanRow(s.(cmds := s.cmds + Lines(pre)), rest)
    decreases |pre|
  {
    if pre == [] {
      assert pre + rest == rest;
      assert s.cmds + [] == s.cmds;
    } else {
      var (f, v) := pre[0];
      DisabledField(s, f, v);
      var t := s.(cmds := s.cmds + FieldLine(f, v));
      assert (pre + rest)[0] == pre[0];
      assert (pre + rest)[1..] == pre[1..] + rest;
      NoAsnTail(pre);
      DisabledPrefix(t, pre[1..], rest);
      AppendAssoc(s.cmds, FieldLine(f, v), Lines(pre[1..]));
    }
  }

  /** The first local_asn enables BGP: its "router bgp" is followed by
      "no bgp default ipv4-unicast", and from then on the row emits its
      Lines as long as it repeats the AS number. */
  lemma FirstAsnEnables(s: Scan, pre: Row, asn: string, post: Row)
    requires !s.enabled && !s.rejected && NoAsnField(pre) && AsnFieldsAre(post, asn)
    ensures ScanRow(s, pre + [("local_asn", asn)] + post) ==
            Scan(true, asn, s.cmds + Lines(pre) + [RouterBgp(asn), NO_DEFAULT_IPV4] + Lines(post), false)
  {
    var s1 := s.(cmds := s.cmds + Lines(pre));
    var s2 := Scan(true, asn, s1.cmds + [RouterBgp(asn), NO_DEFAULT_IPV4], false);
    assert pre + [("local_asn", asn)] + post == pre + ([("local_asn", asn)] + post);
    DisabledPrefix(s, pre, [("local_asn", asn)] + post);
    ScanRowCons(s1, ("local_asn", asn), post);
    EnableField(s1, asn);
    EnabledSameAsn(s2, post);
  }

  /** The loop over a row that starts with `x`, unrolled once. */
  lemma ScanRowCons(s: Scan, x: (string, string), rest: Row)
    requires !s.rejected
    ensures ScanRow(s, [x] + rest) == ScanRow(ScanField(s, x.0, x.1), rest)
  {
    assert ([x] + rest)[1..] == rest;
  }

  /** Before BGP is enabled, local_asn enables it. */
  lemma EnableField(s: Scan, asn: string)
    requires !s.enabled && !s.rejected
    ensures ScanField(s, "local_asn", asn) == Scan(true, asn, s.cmds + [RouterBgp(asn), NO_DEFAULT_IPV4], false)
  {
    assert s.cmds + [RouterBgp(asn)] + [NO_DEFAULT_IPV4] == s.cmds + [RouterBgp(asn), NO_DEFAULT_IPV4];
  }

  /** AppBgpGlobal */
  class AppBgpGlobal {
    var bgpEnabled: bool
    var localAsn: string

    constructor()
      ensures !bgpEnabled && localAsn == "0"
    {
      bgpEnabled := false;
      localAsn := "0";
    }

    /** set_handler: what it pushes, None when it returns False. */
    method SetHandler(key: string, row: Row) returns (ok: bool, pushed: Option<seq<string>>)
      modifies this
      ensures key != DEFAULT_VRF ==> !ok && pushed == None && bgpEnabled == old(bgpEnabled) && localAsn == old(localAsn)
      ensures key == DEFAULT_VRF ==>
                var t := ScanRow(Scan(old(bgpEnabled), old(localAsn), [], false), row);
                && bgpEnabled == t.enabled && localAsn == t.asn
                && (ok <==> !t.rejected && t.enabled)
                && pushed == (if ok then Some(t.cmds) else None)
    {
      if key != DEFAULT_VRF {
        return false, None;
      }
      ghost var goal := ScanRow(Scan(bgpEnabled, localAsn, [], false), row);
      var cmdList: seq<string> := [];
      var i := 0;
      while i < |row|
        invariant 0 <= i <= |row|
        invariant ScanRow(Scan(bgpEnabled, localAsn, cmdList, false), row[i..]) == goal
      {
        var (field, val) := row[i];
        assert row[i..][1..] == row[i + 1..];
        if field == "local_asn" {
          cmdList := cmdList + [RouterBgp(val)];
          if bgpEnabled {
            if localAsn != val {
              return false, None;
            }
          } else {
            cmdList := cmdList + [NO_DEFAULT_IPV4];
            bgpEnabled := true;
            localAsn := val;
          }
        }
        if field == "router_id" {
          cmdList := cmdList + [RouterId(val)];
        }
        i := i + 1;
      }
      assert row[i..] == [];
      if !bgpEnabled {
        return false, None;
      }
      ok, pushed := true, Some(cmdList);
    }

    /** del_handler: it pushes, and changes nothing. */
    method DelHandler(key: string) returns (ok: bool, pushed: Option<seq<string>>)
      ensures ok <==> key == DEFAULT_VRF && bgpEnabled
      ensures pushed == (if ok then Some([NoRouterBgp(localAsn)]) else None)
    {
      if key != DEFAULT_VRF {
        return false, None;
      }
      if !bgpEnabled {
        return false, None;
      }
      var cmdList := [NoRouterBgp(localAsn)];
      ok, pushed := true, Some(cmdList);
    }
  }

  // ---------------------------------------------------------------------
  // BGP_NEIGHBOR
  // ---------------------------------------------------------------------

  /** The index of the first ':' in `s`, or |s| when there is none. */
  function FirstColon(s: string): (i: nat)
    ensures i <= |s|
    ensures forall k :: 0 <= k < i ==> s[k] != ':'
    ensures i < |s| ==> s[i] == ':'
  {
    if s == [] then 0
    else if s[0] == ':' then 0
    else 1 + FirstColon(s[1..])
  }

  /** split_key: a key without ':' names a neighbor of the default VRF;
      otherwise the key splits at its first ':' only. */
  function SplitKey(key: string): (r: (string, string))
    ensures ':' !in key ==> r == (DEFAULT_VRF, key)
    ensures ':' in key ==> r.0 + [':'] + r.1 == key && ':' !in r.0
  {
    var i := FirstColon(key);
    if i == |key| then
      assert ':' !in key by {
        forall k | 0 <= k < |key| ensures key[k] != ':' { }
      }
      (DEFAULT_VRF, key)
    else
      assert key[..i] + [':'] + key[i + 1..] == key;
      (key[..i], key[i + 1..])
  }

  /** Splitting a VRF name without ':' joined to a neighbor by ':' gives
      both back, whatever the neighbor holds. */
  lemma {:induction false} SplitKeyJoin(vrf: string, nbr: string)
    requires ':' !in vrf
    ensures SplitKey(vrf + [':'] + nbr) == (vrf, nbr)
  {
    var key := vrf + [':'] + nbr;
    FirstColonJoin(vrf, nbr);
    assert key[..|vrf|] == vrf;
    assert key[|vrf| + 1..] == nbr;
  }

  lemma {:induction false} FirstColonJoin(vrf: string, nbr: string)
    requires ':' !in vrf
    ensures FirstColon(vrf + [':'] + nbr) == |vrf|
    decreases |vrf|
  {
    if vrf == [] {
      assert (vrf + [':'] + nbr)[0] == ':';
    } else {
      assert (vrf + [':'] + nbr)[1..] == vrf[1..] + [':'] + nbr;
      FirstColonJoin(vrf[1..], nbr);
    }
  }

  /** An IPv6 neighbor of the default VRF keeps its colons. */
  lemma SplitIpv6Neighbor()
    ensures SplitKey("default:fc00::1") == ("default", "fc00::1")
  {
    assert "default:fc00::1" == "default" + [':'] + "fc00::1";
    SplitKeyJoin("default", "fc00::1");
  }

  /** The remote-as commands for the asn fields of `row`, in field order. */
  function RemoteAsLines(nbr: string, row: Row): (ls: seq<string>)
    ensures |ls| <= |row|
  {
    if row == [] then []
    else (if row[0].0 == "asn" then [RemoteAs(nbr, row[0].1)] else []) + RemoteAsLines(nbr, row[1..])
  }

  /** RemoteAsLines of one more field. */
  lemma {:induction false} RemoteAsLinesSnoc(nbr: string, row: Row, field: string, val: string)
    ensures RemoteAsLines(nbr, row + [(field, val)]) ==
            RemoteAsLines(nbr, row) + (if field == "asn" then [RemoteAs(nbr, val)] else [])
    decreases |row|
  {
    if row == [] {
      assert [] + [(field, val)] == [(field, val)];
    } else {
      assert (row + [(field, val)])[1..] == row[1..] + [(field, val)];
      RemoteAsLinesSnoc(nbr, row[1..], field, val);
    }
  }

  /** The field names of `row`, in order. */
  function Fields(row: Row): (fs: seq<string>)
    ensures |fs| == |row| && forall i :: 0 <= i < |row| ==> fs[i] == row[i].0
  {
    seq(|row|, i requires 0 <= i < |row| => row[i].0)
  }

  /** Every asn field gives one remote-as command, and nothing else does. */
  lemma {:induction false} RemoteAsCount(nbr: string, row: Row)
    ensures |RemoteAsLines(nbr, row)| == multiset(Fields(row))["asn"]
    decreases |row|
  {
    if row == [] {
      assert Fields(row) == [];
    } else {
      RemoteAsCount(nbr, row[1..]);
      assert Fields(row) == [row[0].0] + Fields(row[1..]);
    }
  }

  /** AppBgpNeighbor */
  class AppBgpNeighbor {
    var bgpEnabled: bool
    var localAsn: string

    constructor()
      ensures !bgpEnabled && localAsn == "0"
    {
      bgpEnabled := false;
      localAsn := "0";
    }

    /** set_handler. `globalAsn` is what the BGP_GLOBAL slot of the
        directory holds under default/local_asn, None when the lookup fails. */
    method SetHandler(key: string, row: Row, globalAsn: Option<string>) returns (ok: bool, pushed: Option<seq<string>>)
      modifies this
      ensures var (vrf, nbr) := SplitKey(key);
              && (vrf != DEFAULT_VRF || (!old(bgpEnabled) && globalAsn == None) ==>
                    !ok && pushed == None && bgpEnabled == old(bgpEnabled) && localAsn == old(localAsn))
              && (vrf == DEFAULT_VRF && (old(bgpEnabled) || globalAsn != None) ==>
                    && ok && bgpEnabled
                    && localAsn == (if old(bgpEnabled) then old(localAsn) else globalAsn.value)
                    && pushed == Some([RouterBgp(localAsn)] + RemoteAsLines(nbr, row)))
    {
      var (vrf, nbr) := SplitKey(key);
      if vrf != DEFAULT_VRF {
        return false, None;
      }
      if !bgpEnabled {
        if globalAsn == None {
          return false, None;
        }
        localAsn := globalAsn.value;
        bgpEnabled := true;
      }
      var cmdList := [RouterBgp(localAsn)];
      ghost var asn := localAsn;
      var i := 0;
      while i < |row|
        invariant 0 <= i <= |row|
        invariant bgpEnabled && localAsn == asn
        invariant cmdList == [RouterBgp(localAsn)] + RemoteAsLines(nbr, row[..i])
      {
        var (field, val) := row[i];
        assert row[..i + 1] == row[..i] + [(field, val)];
        RemoteAsLinesSnoc(nbr, row[..i], field, val);
        if field == "asn" {
          cmdList := cmdList + [RemoteAs(nbr, val)];
        }
        i := i + 1;
      }
      assert row[..i] == row;
      ok, pushed := true, Some(cmdList);
    }

    /** del_handler: it pushes, and changes nothing. */
    method DelHandler(key: string) returns (ok: bool, pushed: Option<seq<string>>)
      ensures ok <==> SplitKey(key).0 == DEFAULT_VRF && bgpEnabled
      ensures pushed == (if ok then Some([RouterBgp(localAsn), NoNeighbor(SplitKey(key).1)]) else None)
    {
      var (vrf, nbr) := SplitKey(key);
      if vrf != DEFAULT_VRF {
        return false, None;
      }
      if !bgpEnabled {
        return false, None;
      }
      var cmdList := [RouterBgp(localAsn), NoNeighbor(nbr)];
      ok, pushed := true, Some(cmdList);
    }
  }
}
