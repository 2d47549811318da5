/** Membership keys, export and import of x/rwa. */
module RwaGenesis {
  import opened Bytes
  import opened Results
  import opened KvStore
  import opened Ledger
  import opened RwaState
  import opened RwaRuns
  import OracleState

  // ----- membership keys

  const ALLOW: Byte := 3
  const DENY: Byte := 4

  /** One byte for the list, one for the length of the asset id, then the id. */
  function MembershipPrefix(list: Byte, id: AssetId): Bytes {
    [list, |id| % 256] + id
  }

  function MembershipKey(list: Byte, id: AssetId, addr: Addr): Bytes {
    MembershipPrefix(list, id) + addr
  }

  /** A scan of one asset's list meets the members of that asset on that list and no others, for ids that fit
      the length byte; the address is what follows the id. */
  lemma MembershipScanIsExact(list: Byte, id: AssetId, list': Byte, id': AssetId, addr: Addr)
    requires |id| < 256 && |id'| < 256
    ensures MembershipPrefix(list, id) <= MembershipKey(list', id', addr) <==> list == list' && id == id'
    ensures MembershipKey(list, id, addr)[2 + |id|..] == addr
  {
    var key, prefix := MembershipKey(list', id', addr), MembershipPrefix(list, id);
    if prefix <= key {
      assert key[0] == list' && key[1] == |id'| && prefix[0] == list && prefix[1] == |id|;
      assert id == prefix[2..] && id' == key[2..2 + |id'|];
    }
    if list == list' && id == id' {
      assert key[..|prefix|] == prefix;
    }
  }

  /** The same scan with ids of 256 bytes more would not be exact: the length byte wraps. */
  lemma LongIdsCollide(list: Byte, id: AssetId, tail: Bytes, addr: Addr)
    requires |tail| == 256 && |id| < 256
    ensures id != id + tail && MembershipPrefix(list, id) <= MembershipKey(list, id + tail, addr)
  {
  }

  ghost predicate IsMemberRecord(k: Bytes, list: Byte, members: set<Member>) {
    exists m :: m in members && k == MembershipKey(list, m.id, m.addr)
  }

  ghost predicate MemberAtKey(m: Member, list: Byte, raw: map<Bytes, Byte>) {
    |m.id| < 256 && MembershipKey(list, m.id, m.addr) in raw
  }

  /** The raw store section of a list holds the keys of its members, and nothing else. */
  ghost predicate MembersMatch(raw: map<Bytes, Byte>, list: Byte, members: set<Member>) {
    && (forall m {:trigger MemberAtKey(m, list, raw)} :: m in members ==> MemberAtKey(m, list, raw))
    && (forall k {:trigger IsMemberRecord(k, list, members)} :: k in raw ==> IsMemberRecord(k, list, members))
  }

  /** Writing one member's key. */
  method AddMember(raw: map<Bytes, Byte>, list: Byte, ghost members: set<Member>, m: Member) returns (raw': map<Bytes, Byte>)
    requires MembersMatch(raw, list, members) && |m.id| < 256
    ensures MembersMatch(raw', list, members + {m})
  {
    raw' := raw[MembershipKey(list, m.id, m.addr) := 1];
    forall x | x in members + {m} ensures MemberAtKey(x, list, raw') {
      assert x in members ==> MemberAtKey(x, list, raw);
    }
    forall k | k in raw' ensures IsMemberRecord(k, list, members + {m}) {
      if k in raw {
        assert IsMemberRecord(k, list, members);
        var x :| x in members && k == MembershipKey(list, x.id, x.addr);
        assert x in members + {m};
      } else {
        assert m in members + {m};
      }
    }
  }

  ghost predicate AddressesAscend(addrs: seq<Addr>) {
    forall i, j :: 0 <= i < j < |addrs| ==> Less(addrs[i], addrs[j])
  }

  /** The members of one asset's list, each once, in the order of their addresses. */
  method IterateMembers(raw: map<Bytes, Byte>, list: Byte, id: AssetId, ghost members: set<Member>) returns (addrs: seq<Addr>)
    requires MembersMatch(raw, list, members) && |id| < 256
    ensures forall a: Addr :: a in addrs <==> Member(id, a) in members
    ensures AddressesAscend(addrs)
  {
    var keys := PrefixIterator(raw, MembershipPrefix(list, id));
    addrs := [];
    for i := 0 to |keys|
      invariant |addrs| == i
      invariant forall j :: 0 <= j < i ==> Member(id, addrs[j]) in members && keys[j] == MembershipKey(list, id, addrs[j])
    {
      assert keys[i] in keys;
      assert IsMemberRecord(keys[i], list, members);
      ghost var m :| m in members && keys[i] == MembershipKey(list, m.id, m.addr);
      assert MemberAtKey(m, list, raw);
      MembershipScanIsExact(list, id, list, m.id, m.addr);
      var n: int := keys[i][1];
      addrs := addrs + [keys[i][2 + n..]];
    }
    ScanFindsMembers(raw, list, id, members, keys, addrs);
  }

  lemma ScanFindsMembers(raw: map<Bytes, Byte>, list: Byte, id: AssetId, members: set<Member>, keys: seq<Bytes>, addrs: seq<Addr>)
    requires MembersMatch(raw, list, members) && |id| < 256 && IsPrefixScan(raw, MembershipPrefix(list, id), keys)
    requires |addrs| == |keys|
    requires forall j :: 0 <= j < |keys| ==> Member(id, addrs[j]) in members && keys[j] == MembershipKey(list, id, addrs[j])
    ensures forall a: Addr :: a in addrs <==> Member(id, a) in members
    ensures AddressesAscend(addrs)
  {
    forall i, j | 0 <= i < j < |addrs| ensures Less(addrs[i], addrs[j]) {
      assert Less(keys[i], keys[j]);
      LessAfterPrefix(MembershipPrefix(list, id), addrs[i], addrs[j]);
    }
    forall a: Addr | Member(id, a) in members ensures a in addrs {
      var m := Member(id, a);
      assert MemberAtKey(m, list, raw);
      MembershipScanIsExact(list, id, list, id, a);
      assert MembershipKey(list, id, a) in keys;
      var j :| 0 <= j < |keys| && keys[j] == MembershipKey(list, id, a);
      MembershipScanIsExact(list, id, list, id, addrs[j]);
      assert addrs[j] == a;
    }
  }

  // ----- genesis files

  datatype Restriction = Restriction(member: Member, isDeny: bool)
  datatype Genesis = Genesis(params: Params, assets: seq<Asset>, restrictions: seq<Restriction>)

  /** The part of the state that a genesis file carries. */
  datatype Records = Records(params: Params, assets: map<AssetId, Asset>, issuerIndex: set<IssuerEntry>,
                             allow: set<Member>, deny: set<Member>)

  function RecordsOf(w: World): Records {
    Records(w.params, w.assets, w.issuerIndex, w.allow, w.deny)
  }

  ghost predicate ListsAssets(xs: seq<Asset>, assets: map<AssetId, Asset>) {
    && (forall i :: 0 <= i < |xs| ==> xs[i].id in assets && assets[xs[i].id] == xs[i])
    && (forall id :: id in assets ==> assets[id].id == id && assets[id] in xs)
    && (forall i, j :: 0 <= i < j < |xs| ==> xs[i].id != xs[j].id)
  }

  /** Every asset once, and every member of either list of every asset. */
  ghost predicate IsExport(r: Records, g: Genesis) {
    && g.params == r.params && ListsAssets(g.assets, r.assets)
    && forall x: Restriction :: x in g.restrictions <==>
         x.member.id in r.assets && x.member in (if x.isDeny then r.deny else r.allow)
  }

  ghost predicate IdsAscend(xs: seq<Asset>) {
    forall i, j :: 0 <= i < j < |xs| ==> Less(xs[i].id, xs[j].id)
  }

  /** Asset by asset, the allow list before the deny list, each in the order of the addresses. */
  ghost predicate ListedBefore(x: Restriction, y: Restriction) {
    || Less(x.member.id, y.member.id)
    || (x.member.id == y.member.id && !x.isDeny && y.isDeny)
    || (x.member.id == y.member.id && x.isDeny == y.isDeny && Less(x.member.addr, y.member.addr))
  }

  ghost predicate RestrictionsAscend(rs: seq<Restriction>) {
    forall i, j :: 0 <= i < j < |rs| ==> ListedBefore(rs[i], rs[j])
  }

  lemma RestrictionsConcat(a: seq<Restriction>, b: seq<Restriction>)
    requires RestrictionsAscend(a) && RestrictionsAscend(b)
    requires forall x, y :: x in a && y in b ==> ListedBefore(x, y)
    ensures RestrictionsAscend(a + b)
  {
    forall i, j | 0 <= i < j < |a + b| ensures ListedBefore((a + b)[i], (a + b)[j]) {
      if i < |a| <= j {
        assert a[i] in a && b[j - |a|] in b;
      }
    }
  }

  /** The restrictions of the first assets, in order. */
  ghost predicate RestrictionsOf(rs: seq<Restriction>, ids: seq<AssetId>, r: Records) {
    && RestrictionsAscend(rs)
    && forall x: Restriction :: x in rs <==> x.member.id in ids && x.member in (if x.isDeny then r.deny else r.allow)
  }

  /** The assets in the order of their ids, then their restrictions. */
  method ExportGenesis(r: Records, rawAllow: map<Bytes, Byte>, rawDeny: map<Bytes, Byte>) returns (g: Genesis)
    requires forall id :: id in r.assets ==> r.assets[id].id == id && |id| < 256
    requires MembersMatch(rawAllow, ALLOW, r.allow) && MembersMatch(rawDeny, DENY, r.deny)
    ensures IsExport(r, g) && IdsAscend(g.assets) && RestrictionsAscend(g.restrictions)
  {
    var ids := PrefixIterator(r.assets, []);
    var xs := ExportAssets(r.assets, ids);
    var rs: seq<Restriction> := [];
    for i := 0 to |ids|
      invariant RestrictionsOf(rs, ids[..i], r)
    {
      assert ids[i] in ids;
      var more := ExportMembers(r, ids[i], rawAllow, rawDeny);
      RestrictionsAdd(ids, i, r, rs, more);
      rs := rs + more;
    }
    assert ids[..|ids|] == ids;
    g := Genesis(r.params, xs, rs);
  }

  method ExportAssets(assets: map<AssetId, Asset>, ids: seq<AssetId>) returns (xs: seq<Asset>)
    requires IsPrefixScan(assets, [], ids) && forall id :: id in assets ==> assets[id].id == id
    ensures ListsAssets(xs, assets) && IdsAscend(xs)
  {
    xs := [];
    for i := 0 to |ids|
      invariant |xs| == i && forall j :: 0 <= j < i ==> ids[j] in assets && xs[j] == assets[ids[j]]
    {
      assert ids[i] in ids;
      xs := xs + [assets[ids[i]]];
    }
    AscendingDistinct(ids);
    forall id | id in assets ensures assets[id] in xs {
      assert id in ids;
      var i :| 0 <= i < |ids| && ids[i] == id;
      assert xs[i] == assets[id];
    }
  }

  /** One asset's allow list, then its deny list. */
  method ExportMembers(r: Records, id: AssetId, rawAllow: map<Bytes, Byte>, rawDeny: map<Bytes, Byte>) returns (rs: seq<Restriction>)
    requires MembersMatch(rawAllow, ALLOW, r.allow) && MembersMatch(rawDeny, DENY, r.deny) && |id| < 256
    ensures RestrictionsOf(rs, [id], r)
  {
    var allowed := IterateMembers(rawAllow, ALLOW, id, r.allow);
    var denied := IterateMembers(rawDeny, DENY, id, r.deny);
    var a := Restrictions(id, allowed, false);
    var d := Restrictions(id, denied, true);
    rs := a + d;
    RestrictionsConcat(a, d);
    forall x: Restriction ensures x in rs <==> x.member.id in [id] && x.member in (if x.isDeny then r.deny else r.allow) {
      assert x in rs <==> x in a || x in d;
      assert x.member == Member(x.member.id, x.member.addr);
    }
  }

  method Restrictions(id: AssetId, addrs: seq<Addr>, isDeny: bool) returns (rs: seq<Restriction>)
    requires AddressesAscend(addrs)
    ensures forall x: Restriction :: x in rs <==> x.isDeny == isDeny && x.member.id == id && x.member.addr in addrs
    ensures RestrictionsAscend(rs)
  {
    rs := [];
    for i := 0 to |addrs|
      invariant |rs| == i && forall j :: 0 <= j < i ==> rs[j] == Restriction(Member(id, addrs[j]), isDeny)
    {
      rs := rs + [Restriction(Member(id, addrs[i]), isDeny)];
    }
    forall x: Restriction | x.isDeny == isDeny && x.member.id == id && x.member.addr in addrs ensures x in rs {
      var j :| 0 <= j < |addrs| && addrs[j] == x.member.addr;
      assert rs[j] == x;
    }
  }

  lemma RestrictionsAdd(ids: seq<AssetId>, i: nat, r: Records, rs: seq<Restriction>, more: seq<Restriction>)
    requires Ascending(ids) && i < |ids| && RestrictionsOf(rs, ids[..i], r) && RestrictionsOf(more, [ids[i]], r)
    ensures RestrictionsOf(rs + more, ids[..i + 1], r)
  {
    assert ids[..i + 1] == ids[..i] + [ids[i]];
    forall x, y | x in rs && y in more ensures ListedBefore(x, y) {
      var j :| 0 <= j < i && ids[j] == x.member.id;
      assert Less(ids[j], ids[i]);
    }
    RestrictionsConcat(rs, more);
    forall x: Restriction ensures x in rs + more <==> x.member.id in ids[..i + 1] && x.member in (if x.isDeny then r.deny else r.allow) {
      assert x in rs + more <==> x in rs || x in more;
    }
  }

  // ----- import

  ghost predicate AssetAcceptable(a: Asset, params: Params) {
    && ValidAssetId(a.id) && OracleState.PairOk(a.pair)
    && (a.status == Attested || a.status == Active ==> a.bond >= params.minIssuerBond)
  }

  ghost predicate Known(g: Genesis, id: AssetId) {
    exists j :: 0 <= j < |g.assets| && g.assets[j].id == id
  }

  ghost predicate Acceptable(g: Genesis) {
    && g.params.Valid() && AssetsAcceptable(g.assets, g.params)
    && (forall i :: 0 <= i < |g.restrictions| ==> Known(g, g.restrictions[i].member.id))
  }

  ghost predicate IndexMatches(index: set<IssuerEntry>, assets: map<AssetId, Asset>) {
    && (forall id :: id in assets ==> IssuerEntry(assets[id].issuer, id) in index)
    && (forall e :: e in index ==> e.id in assets && assets[e.id].issuer == e.issuer)
  }

  ghost predicate AssetsAcceptable(xs: seq<Asset>, params: Params) {
    && (forall i :: 0 <= i < |xs| ==> AssetAcceptable(xs[i], params))
    && (forall i, j :: 0 <= i < j < |xs| ==> xs[i].id != xs[j].id)
  }

  /** The assets of a list that passes all checks, loaded with their index entries. */
  ghost predicate Loaded(xs: seq<Asset>, params: Params, assets: map<AssetId, Asset>, index: set<IssuerEntry>) {
    AssetsAcceptable(xs, params) && ListsAssets(xs, assets) && IndexMatches(index, assets)
  }

  lemma LoadOne(xs: seq<Asset>, n: nat, params: Params, assets: map<AssetId, Asset>, index: set<IssuerEntry>)
    requires n < |xs| && Loaded(xs[..n], params, assets, index)
    requires AssetAcceptable(xs[n], params) && xs[n].id !in assets
    ensures Loaded(xs[..n + 1], params, assets[xs[n].id := xs[n]], index + {IssuerEntry(xs[n].issuer, xs[n].id)})
  {
    var a := xs[n];
    assert xs[..n + 1] == xs[..n] + [a];
    ListOne(xs[..n], assets, a);
    IndexOne(index, assets, a);
  }

  lemma ListOne(xs: seq<Asset>, assets: map<AssetId, Asset>, a: Asset)
    requires ListsAssets(xs, assets) && a.id !in assets
    ensures ListsAssets(xs + [a], assets[a.id := a])
  {
    var ys := xs + [a];
    assert ys[|xs|] == a;
  }

  lemma IndexOne(index: set<IssuerEntry>, assets: map<AssetId, Asset>, a: Asset)
    requires IndexMatches(index, assets) && a.id !in assets
    ensures IndexMatches(index + {IssuerEntry(a.issuer, a.id)}, assets[a.id := a])
  {
  }

  lemma IdRepeats(xs: seq<Asset>, n: nat, params: Params, assets: map<AssetId, Asset>)
    requires n < |xs| && ListsAssets(xs[..n], assets) && xs[n].id in assets
    ensures !AssetsAcceptable(xs, params)
  {
    var i :| 0 <= i < n && xs[..n][i] == assets[xs[n].id];
    assert xs[i].id == xs[n].id;
  }

  /** Checks the assets one by one and stores them with their index entries. */
  method ImportAssets(g: Genesis) returns (ok: bool, assets: map<AssetId, Asset>, index: set<IssuerEntry>)
    ensures ok <==> AssetsAcceptable(g.assets, g.params)
    ensures ok ==> ListsAssets(g.assets, assets) && IndexMatches(index, assets)
  {
    assets, index := map[], {};
    for n := 0 to |g.assets|
      invariant Loaded(g.assets[..n], g.params, assets, index)
    {
      var a := g.assets[n];
      if !ValidAssetId(a.id) || !OracleState.PairOk(a.pair)
         || ((a.status == Attested || a.status == Active) && a.bond < g.params.minIssuerBond) {
        assert !AssetAcceptable(g.assets[n], g.params);
        return false, assets, index;
      }
      if a.id in assets {
        IdRepeats(g.assets, n, g.params, assets);
        return false, assets, index;
      }
      LoadOne(g.assets, n, g.params, assets, index);
      assets, index := assets[a.id := a], index + {IssuerEntry(a.issuer, a.id)};
    }
    assert g.assets[..|g.assets|] == g.assets;
    return true, assets, index;
  }

  ghost predicate MembersListed(rs: seq<Restriction>, members: set<Member>, isDeny: bool) {
    forall m: Member :: m in members <==> Restriction(m, isDeny) in rs
  }

  method ImportRestrictions(rs: seq<Restriction>, assets: map<AssetId, Asset>) returns (ok: bool, allow: set<Member>, deny: set<Member>)
    ensures ok <==> forall i :: 0 <= i < |rs| ==> rs[i].member.id in assets
    ensures ok ==> MembersListed(rs, allow, false) && MembersListed(rs, deny, true)
  {
    allow, deny := {}, {};
    for n := 0 to |rs|
      invariant forall i :: 0 <= i < n ==> rs[i].member.id in assets
      invariant MembersListed(rs[..n], allow, false) && MembersListed(rs[..n], deny, true)
    {
      if rs[n].member.id !in assets {
        return false, allow, deny;
      }
      assert rs[..n + 1] == rs[..n] + [rs[n]];
      if rs[n].isDeny {
        deny := deny + {rs[n].member};
      } else {
        allow := allow + {rs[n].member};
      }
    }
    assert rs[..|rs|] == rs;
    return true, allow, deny;
  }

  ghost predicate Imported(g: Genesis, r: Records) {
    && r.params == g.params && ListsAssets(g.assets, r.assets) && IndexMatches(r.issuerIndex, r.assets)
    && MembersListed(g.restrictions, r.allow, false) && MembersListed(g.restrictions, r.deny, true)
  }

  /** Validates and loads a genesis; a refusal stands for the panic that aborts the start. */
  method InitGenesis(g: Genesis) returns (r: Option<Records>)
    ensures r.Some? <==> Acceptable(g)
    ensures r.Some? ==> Imported(g, r.value)
  {
    if !g.params.Valid() {
      return None;
    }
    var ok, assets, index := ImportAssets(g);
    if !ok {
      return None;
    }
    var ok', allow, deny := ImportRestrictions(g.restrictions, assets);
    KnownIds(g, assets);
    if !ok' {
      return None;
    }
    return Some(Records(g.params, assets, index, allow, deny));
  }

  lemma KnownIds(g: Genesis, assets: map<AssetId, Asset>)
    requires ListsAssets(g.assets, assets)
    ensures forall id: AssetId :: id in assets <==> Known(g, id)
  {
  }

  // ----- the round trip

  /** An export of a reachable state is accepted back exactly when every attested or active bond still meets the
      current minimum. */
  lemma ExportAcceptedExactly(s: Sys, g: Genesis)
    requires Inv(s) && IsExport(RecordsOf(s.w), g)
    ensures Acceptable(g) <==>
            forall id :: id in s.w.assets && (s.w.assets[id].status == Attested || s.w.assets[id].status == Active)
                     ==> s.w.assets[id].bond >= s.w.params.minIssuerBond
  {
    var w := s.w;
    KnownIds(g, w.assets);
    if Acceptable(g) {
      forall id | id in w.assets && (w.assets[id].status == Attested || w.assets[id].status == Active)
        ensures w.assets[id].bond >= w.params.minIssuerBond
      {
        var i :| 0 <= i < |g.assets| && g.assets[i] == w.assets[id];
        assert AssetAcceptable(g.assets[i], g.params);
      }
    }
    forall i | 0 <= i < |g.assets|
      ensures ValidAssetId(g.assets[i].id) && OracleState.PairOk(g.assets[i].pair)
    {
      assert IdOk(w, g.assets[i].id);
    }
    forall i | 0 <= i < |g.restrictions| ensures g.restrictions[i].member.id in w.assets {
      assert g.restrictions[i] in g.restrictions;
    }
  }

  /** Import after export restores parameters, assets, issuer index and both lists. */
  lemma RoundTrip(s: Sys, g: Genesis, r: Records)
    requires Inv(s) && IsExport(RecordsOf(s.w), g) && Imported(g, r)
    ensures r == RecordsOf(s.w)
  {
  }

  // ----- starting a chain

  /** The world a chain starts with: the loaded records over the bank's ledger, the supply recorded, nothing burned. */
  function Start(r: Records, l: Ledger, fp: FeesParams): World {
    World(l, r.params, r.assets, r.issuerIndex, r.allow, r.deny, fp, Supply(l, UVTX), 0)
  }

  ghost predicate BackedId(l: Ledger, assets: map<AssetId, Asset>, id: AssetId) {
    if id in assets then assets[id].denom == BuildDenom(id) && StatusOk(l, assets[id]) else Supply(l, BuildDenom(id)) == 0
  }

  /** The supplies are those the records tell of, and the module account holds the bonds. */
  ghost predicate Backed(l: Ledger, assets: map<AssetId, Asset>) {
    (forall id: AssetId :: BackedId(l, assets, id)) && Escrowed(assets) <= Bal(l, RWA, UVTX)
  }

  /** An accepted genesis is one that runs can start from exactly when the bank backs its assets. */
  lemma ImportedIsInitialExactly(g: Genesis, r: Records, l: Ledger, fp: FeesParams)
    requires Acceptable(g) && Imported(g, r) && Balanced(l) && fp.Valid()
    ensures (exists d: nat, f: nat :: Initial(Sys(Start(r, l, fp), d, f, 0))) <==> Backed(l, r.assets)
  {
    var w := Start(r, l, fp);
    ImportedIndexOk(g, r, w);
    forall id: AssetId ensures IdOk(w, id) <==> BackedId(l, r.assets, id) {
      if id in r.assets {
        var i :| 0 <= i < |g.assets| && g.assets[i] == r.assets[id];
        assert AssetAcceptable(g.assets[i], g.params);
      }
    }
    if Backed(l, r.assets) {
      assert Initial(Sys(w, Bal(l, RWA, UVTX) - Escrowed(r.assets), Bal(l, FEES, UVTX), 0));
    }
    if d: nat, f: nat :| Initial(Sys(w, d, f, 0)) {
      forall id: AssetId ensures BackedId(l, r.assets, id) {
        assert IdOk(w, id);
      }
    }
  }

  lemma ImportedIndexOk(g: Genesis, r: Records, w: World)
    requires Acceptable(g) && Imported(g, r) && RecordsOf(w) == r
    ensures IndexOk(w)
  {
    KnownIds(g, r.assets);
    forall m | m in w.allow || m in w.deny ensures m.id in w.assets {
      var x := Restriction(m, m !in w.allow);
      var i :| 0 <= i < |g.restrictions| && g.restrictions[i] == x;
    }
  }

  /** Exporting a reachable state and starting over with the same bank gives a state runs can start from. */
  lemma RestartIsInitial(s: Sys, g: Genesis, r: Records)
    requires Inv(s) && IsExport(RecordsOf(s.w), g) && Imported(g, r)
    ensures Initial(Sys(Start(r, s.w.bank, s.w.fees), s.donated, s.feesDonated, 0))
  {
    RoundTrip(s, g, r);
    IdsStay(s.w, Start(r, s.w.bank, s.w.fees));
  }
}
