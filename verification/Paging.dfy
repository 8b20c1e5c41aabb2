/** Loading validator keys page by page, without duplicates, and checking that muxes do not overlap. */
module Paging {
  import opened Wrappers

  /** A public key, as bytes. */
  type Key = seq<bv8>

  const BLS_PK_LEN: nat := 48
  const CALL_BATCH_SIZE: nat := 250
  const MAX_PER_PAGE: nat := 100

  // ----- keys in a row of bytes

  predicate AreKeys(keys: seq<Key>) {
    forall k :: 0 <= k < |keys| ==> |keys[k]| == BLS_PK_LEN
  }

  /** The bytes of keys in a row. */
  function InARow(keys: seq<Key>): seq<bv8> {
    if keys == [] then [] else InARow(keys[..|keys| - 1]) + keys[|keys| - 1]
  }

  lemma {:induction false} InARowLength(keys: seq<Key>)
    requires AreKeys(keys)
    ensures |InARow(keys)| == BLS_PK_LEN * |keys|
  {
    if keys != [] {
      InARowLength(keys[..|keys| - 1]);
    }
  }

  /** Bytes are those of one list of keys only. */
  lemma {:induction false} InARowInjective(a: seq<Key>, b: seq<Key>)
    requires AreKeys(a) && AreKeys(b) && InARow(a) == InARow(b)
    ensures a == b
  {
    InARowLength(a);
    InARowLength(b);
    if a != [] {
      var n := |a| - 1;
      InARowLength(a[..n]);
      InARowLength(b[..n]);
      var bytes := InARow(a);
      assert bytes[..BLS_PK_LEN * n] == InARow(a[..n]) && bytes[..BLS_PK_LEN * n] == InARow(b[..n]);
      assert bytes[BLS_PK_LEN * n..] == a[n] && bytes[BLS_PK_LEN * n..] == b[n];
      InARowInjective(a[..n], b[..n]);
      assert a == a[..n] + [a[n]] && b == b[..n] + [b[n]];
    }
  }

  /** Split bytes into keys; fails exactly on a number of bytes that is no multiple of a key's. */
  method SplitKeys(bytes: seq<bv8>) returns (res: Option<seq<Key>>)
    ensures res.Some? <==> |bytes| % BLS_PK_LEN == 0
    ensures res.Some? ==> AreKeys(res.value) && InARow(res.value) == bytes
  {
    if |bytes| % BLS_PK_LEN != 0 {
      return None;
    }
    var keys: seq<Key> := [];
    var at := 0;
    while at < |bytes|
      invariant at <= |bytes| && at % BLS_PK_LEN == 0 && AreKeys(keys) && InARow(keys) == bytes[..at]
    {
      var chunk := bytes[at..at + BLS_PK_LEN];
      assert (keys + [chunk])[..|keys|] == keys;
      assert bytes[..at] + chunk == bytes[..at + BLS_PK_LEN];
      keys := keys + [chunk];
      at := at + BLS_PK_LEN;
    }
    assert bytes[..|bytes|] == bytes;
    return Some(keys);
  }

  // ----- the Lido registry

  /** A registry call: the bytes it returns for an offset and a limit, if it answers. */
  type Registry = (nat, nat) -> Option<seq<bv8>>

  /** The registry serves slices of a list. */
  ghost predicate Serves(registry: Registry, keys: seq<Key>) {
    forall offset: nat, limit: nat :: offset + limit <= |keys| ==>
      registry(offset, limit) == Some(InARow(keys[offset..offset + limit]))
  }

  /** One call to the registry, split into keys. */
  method FetchBatch(registry: Registry, offset: nat, limit: nat, ghost list: seq<Key>) returns (res: Option<seq<Key>>)
    ensures res.Some? <==> registry(offset, limit).Some? && |registry(offset, limit).value| % BLS_PK_LEN == 0
    ensures res.Some? ==> AreKeys(res.value) && InARow(res.value) == registry(offset, limit).value
    ensures AreKeys(list) && Serves(registry, list) && offset + limit <= |list| ==>
              res == Some(list[offset..offset + limit])
  {
    var bytes := registry(offset, limit);
    if bytes.None? {
      return None;
    }
    res := SplitKeys(bytes.value);
    if AreKeys(list) && Serves(registry, list) && offset + limit <= |list| {
      var slice := list[offset..offset + limit];
      assert bytes == Some(InARow(slice));
      InARowLength(slice);
      InARowInjective(res.value, slice);
    }
  }

  /**
    `fetch_lido_registry_keys`: whatever the registry answers, a result has the
    announced number of keys, each of 48 bytes, and took one call per started
    batch; if the registry serves a list of that length, the result is that list.
   */
  method FetchLidoKeys(registry: Registry, totalKeys: nat, ghost list: seq<Key>)
    returns (res: Option<seq<Key>>, calls: nat)
    ensures res.Some? ==> |res.value| == totalKeys && AreKeys(res.value)
    ensures |list| == totalKeys && AreKeys(list) && Serves(registry, list) ==> res == Some(list)
    ensures res.Some? ==> calls == (totalKeys + CALL_BATCH_SIZE - 1) / CALL_BATCH_SIZE
  {
    calls := 0;
    if totalKeys == 0 {
      return Some([]), 0;
    }
    ghost var honest := |list| == totalKeys && AreKeys(list) && Serves(registry, list);
    var keys: seq<Key> := [];
    var offset := 0;
    while offset < totalKeys
      invariant offset <= totalKeys && calls == (offset + CALL_BATCH_SIZE - 1) / CALL_BATCH_SIZE
      invariant offset < totalKeys ==> offset == calls * CALL_BATCH_SIZE
      invariant AreKeys(keys) && (honest ==> keys == list[..offset])
    {
      var limit := if CALL_BATCH_SIZE <= totalKeys - offset then CALL_BATCH_SIZE else totalKeys - offset;
      var page := FetchBatch(registry, offset, limit, list);
      if page.None? {
        return None, calls;
      }
      assert honest ==> list[..offset] + list[offset..offset + limit] == list[..offset + limit];
      keys := keys + page.value;
      calls := calls + 1;
      offset := offset + limit;
    }
    assert honest ==> list[..totalKeys] == list;
    if |keys| != totalKeys {
      return None, calls;
    }
    return Some(keys), calls;
  }

  // ----- the SSV API

  datatype Page = Page(validators: seq<Key>, total: nat)

  /** The API: its answer for a page number, counted from one. */
  type Api = nat -> Option<Page>

  /** Page number p of a list. */
  function PageOf(keys: seq<Key>, p: nat): seq<Key>
    requires p >= 1
  {
    var first := (p - 1) * MAX_PER_PAGE;
    var last := p * MAX_PER_PAGE;
    if first >= |keys| then [] else if last >= |keys| then keys[first..] else keys[first..last]
  }

  /** The API pages through a list and announces its length. */
  ghost predicate Pages(api: Api, list: seq<Key>) {
    forall p: nat :: p >= 1 ==> api(p) == Some(Page(PageOf(list, p), |list|))
  }

  predicate Ends(answer: Option<Page>) {
    answer.None? || |answer.value.validators| < MAX_PER_PAGE
  }

  /**
    `fetch_ssv_pubkeys`, for an API with at least one page that ends the loop: a
    result comes from the first short page and has the length which that page
    announces; if the API pages through a list, the result is that list.
   */
  method FetchSsvKeys(api: Api, ghost end: nat, ghost list: seq<Key>) returns (res: Option<seq<Key>>, calls: nat)
    requires end >= 1 && Ends(api(end))
    ensures 1 <= calls <= end && Ends(api(calls)) && forall p :: 1 <= p < calls ==> !Ends(api(p))
    ensures res.Some? ==> api(calls).Some? && |res.value| == api(calls).value.total
    ensures Pages(api, list) ==> res == Some(list) && calls == |list| / MAX_PER_PAGE + 1
  {
    var keys: seq<Key> := [];
    var page := 1;
    while true
      invariant 1 <= page <= end && forall p :: 1 <= p < page ==> !Ends(api(p))
      invariant Pages(api, list) ==> (page - 1) * MAX_PER_PAGE <= |list| && keys == list[..(page - 1) * MAX_PER_PAGE]
      decreases end - page
    {
      var response := api(page);
      if response.None? {
        return None, page;
      }
      if Pages(api, list) {
        PageJoins(list, page);
      }
      keys := keys + response.value.validators;
      page := page + 1;
      if |response.value.validators| < MAX_PER_PAGE {
        if |keys| != response.value.total {
          return None, page - 1;
        }
        return Some(keys), page - 1;
      }
    }
  }

  /** A full page extends the keys loaded so far by one page; a short one completes the list. */
  lemma PageJoins(list: seq<Key>, p: nat)
    requires p >= 1 && (p - 1) * MAX_PER_PAGE <= |list|
    ensures var page := PageOf(list, p);
            if |page| < MAX_PER_PAGE then
              list[..(p - 1) * MAX_PER_PAGE] + page == list && |list| / MAX_PER_PAGE == p - 1
            else
              p * MAX_PER_PAGE <= |list| && list[..(p - 1) * MAX_PER_PAGE] + page == list[..p * MAX_PER_PAGE]
  {
    var first, last := (p - 1) * MAX_PER_PAGE, p * MAX_PER_PAGE;
    if first == |list| {
      assert list[..first] == list;
    } else if last > |list| {
      assert list[..first] + list[first..] == list;
    } else {
      assert list[..first] + list[first..last] == list[..last];
      assert last == |list| ==> list[first..] == list[first..last];
    }
  }

  // ----- removing duplicates

  /** The keys at their first occurrences, in order. */
  function FirstOccurrences(keys: seq<Key>): seq<Key> {
    if keys == [] then []
    else
      var n := |keys| - 1;
      var before := FirstOccurrences(keys[..n]);
      if keys[n] in keys[..n] then before else before + [keys[n]]
  }

  /** `remove_duplicate_keys`. */
  method RemoveDuplicateKeys(keys: seq<Key>) returns (unique: seq<Key>)
    ensures unique == FirstOccurrences(keys)
  {
    unique := [];
    var seen: set<Key> := {};
    for k := 0 to |keys|
      invariant unique == FirstOccurrences(keys[..k])
      invariant forall x :: x in seen <==> x in keys[..k]
    {
      assert keys[..k + 1][..k] == keys[..k];
      if keys[k] !in seen {
        unique := unique + [keys[k]];
      }
      seen := seen + {keys[k]};
    }
    assert keys[..|keys|] == keys;
  }

  /** An increasing list of positions into keys. */
  ghost predicate Positions(keys: seq<Key>, at: seq<nat>) {
    && (forall i :: 0 <= i < |at| ==> at[i] < |keys|)
    && (forall i, j :: 0 <= i < j < |at| ==> at[i] < at[j])
  }

  /**
    Removing duplicates keeps each key once, at its first position and in the
    original order: the result reads the keys at increasing positions, each the
    first of its key, and every key is among them.
   */
  lemma {:induction false} FirstOccurrencesSpec(keys: seq<Key>) returns (at: seq<nat>)
    ensures var unique := FirstOccurrences(keys);
            && Positions(keys, at) && |at| == |unique|
            && (forall i :: 0 <= i < |at| ==> unique[i] == keys[at[i]] && keys[at[i]] !in keys[..at[i]])
            && (forall i, j :: 0 <= i < j < |unique| ==> unique[i] != unique[j])
            && (forall x :: x in unique <==> x in keys)
  {
    at := [];
    if keys != [] {
      var n := |keys| - 1;
      at := FirstOccurrencesSpec(keys[..n]);
      assert keys == keys[..n] + [keys[n]];
      assert forall i :: 0 <= i < |at| ==> keys[..n][..at[i]] == keys[..at[i]];
      if keys[n] !in keys[..n] {
        at := at + [n];
      }
    }
  }

  // ----- muxes

  /** What a mux's key loader brings, if it has one. */
  datatype Loader = NoLoader | LoaderFails | Loader(keys: seq<Key>)

  /** A mux, and whether its relay clients can be made and its configuration is valid. */
  datatype Mux =
    Mux(id: nat, relayCount: nat, ownKeys: seq<Key>, loader: Loader, clientsWork: bool, configValid: bool)

  function MuxKeys(mux: Mux): seq<Key> {
    mux.ownKeys + if mux.loader.Loader? then mux.loader.keys else []
  }

  predicate AllDistinct(keys: seq<Key>) {
    forall i, j :: 0 <= i < j < |keys| ==> keys[i] != keys[j]
  }

  /** The keys of all muxes, one mux after the other. */
  function KeysOfMuxes(muxes: seq<Mux>): seq<Key> {
    if muxes == [] then [] else KeysOfMuxes(muxes[..|muxes| - 1]) + MuxKeys(muxes[|muxes| - 1])
  }

  /** The mux has relays, its loader works, and it has keys. */
  predicate Usable(mux: Mux) {
    mux.relayCount > 0 && !mux.loader.LoaderFails? && MuxKeys(mux) != []
  }

  predicate Startable(mux: Mux) {
    mux.clientsWork && mux.configValid
  }

  /** The runtime lookup from a key to its mux. */
  function FillMuxes(muxes: seq<Mux>): map<Key, nat> {
    if muxes == [] then map[]
    else
      var last := muxes[|muxes| - 1];
      FillKeys(FillMuxes(muxes[..|muxes| - 1]), MuxKeys(last), last.id)
  }

  function FillKeys(configs: map<Key, nat>, keys: seq<Key>, id: nat): map<Key, nat> {
    if keys == [] then configs
    else FillKeys(configs, keys[..|keys| - 1], id)[keys[|keys| - 1] := id]
  }

  /** The check that no key is listed twice, over one mux's keys. */
  method InsertAll(seen: set<Key>, ghost before: seq<Key>, keys: seq<Key>) returns (ok: bool, seen': set<Key>)
    requires AllDistinct(before) && forall x :: x in seen <==> x in before
    ensures ok <==> AllDistinct(before + keys)
    ensures ok ==> forall x :: x in seen' <==> x in before + keys
  {
    seen' := seen;
    assert before + keys[..0] == before;
    for k := 0 to |keys|
      invariant AllDistinct(before + keys[..k])
      invariant forall x :: x in seen' <==> x in before + keys[..k]
    {
      ghost var all := before + keys;
      assert before + keys[..k] == all[..|before| + k];
      if keys[k] in seen' {
        ghost var j :| 0 <= j < |before| + k && all[..|before| + k][j] == keys[k];
        assert all[j] == all[|before| + k];
        return false, seen';
      }
      assert before + keys[..k + 1] == before + keys[..k] + [keys[k]];
      seen' := seen' + {keys[k]};
    }
    assert keys[..|keys|] == keys;
    return true, seen';
  }

  lemma {:induction false} KeysOfMuxesPrefix(muxes: seq<Mux>, m: nat)
    requires m <= |muxes|
    ensures KeysOfMuxes(muxes[..m]) <= KeysOfMuxes(muxes)
    decreases |muxes| - m
  {
    if m == |muxes| {
      assert muxes[..m] == muxes;
    } else {
      assert muxes[..m + 1][..m] == muxes[..m];
      KeysOfMuxesPrefix(muxes, m + 1);
    }
  }

  method AllUsable(muxes: seq<Mux>) returns (ok: bool)
    ensures ok <==> forall m :: 0 <= m < |muxes| ==> Usable(muxes[m])
  {
    for m := 0 to |muxes|
      invariant forall k :: 0 <= k < m ==> Usable(muxes[k])
    {
      if muxes[m].relayCount == 0 {
        return false;
      }
      if muxes[m].loader.LoaderFails? {
        return false;
      }
      if MuxKeys(muxes[m]) == [] {
        return false;
      }
    }
    return true;
  }

  method NoKeyTwice(muxes: seq<Mux>) returns (ok: bool)
    ensures ok <==> AllDistinct(KeysOfMuxes(muxes))
  {
    var seen: set<Key> := {};
    for m := 0 to |muxes|
      invariant AllDistinct(KeysOfMuxes(muxes[..m]))
      invariant forall x :: x in seen <==> x in KeysOfMuxes(muxes[..m])
    {
      assert muxes[..m + 1][..m] == muxes[..m];
      ok, seen := InsertAll(seen, KeysOfMuxes(muxes[..m]), MuxKeys(muxes[m]));
      if !ok {
        KeysOfMuxesPrefix(muxes, m + 1);
        return false;
      }
    }
    assert muxes[..|muxes|] == muxes;
    return true;
  }

  method FillConfigs(muxes: seq<Mux>) returns (res: Option<map<Key, nat>>)
    ensures res.Some? <==> forall m :: 0 <= m < |muxes| ==> Startable(muxes[m])
    ensures res.Some? ==> res.value == FillMuxes(muxes)
  {
    var configs: map<Key, nat> := map[];
    for m := 0 to |muxes|
      invariant configs == FillMuxes(muxes[..m])
      invariant forall k :: 0 <= k < m ==> Startable(muxes[k])
    {
      if !muxes[m].clientsWork {
        return None;
      }
      if !muxes[m].configValid {
        return None;
      }
      assert muxes[..m + 1][..m] == muxes[..m];
      configs := FillOne(configs, MuxKeys(muxes[m]), muxes[m].id);
    }
    assert muxes[..|muxes|] == muxes;
    return Some(configs);
  }

  method FillOne(start: map<Key, nat>, keys: seq<Key>, id: nat) returns (configs: map<Key, nat>)
    ensures configs == FillKeys(start, keys, id)
  {
    configs := start;
    for k := 0 to |keys|
      invariant configs == FillKeys(start, keys[..k], id)
    {
      assert keys[..k + 1][..k] == keys[..k];
      configs := configs[keys[k] := id];
    }
    assert keys[..|keys|] == keys;
  }

  /**
    `validate_and_fill`: fails exactly on a mux without relays, loaded keys or
    keys at all, on a key that is listed twice, or on a mux that cannot start.
   */
  method ValidateAndFill(muxes: seq<Mux>) returns (res: Option<map<Key, nat>>)
    ensures res.Some? <==>
            && (forall m :: 0 <= m < |muxes| ==> Usable(muxes[m]) && Startable(muxes[m]))
            && AllDistinct(KeysOfMuxes(muxes))
    ensures res.Some? ==> res.value == FillMuxes(muxes)
  {
    var usable := AllUsable(muxes);
    if !usable {
      return None;
    }
    var distinct := NoKeyTwice(muxes);
    if !distinct {
      return None;
    }
    res := FillConfigs(muxes);
  }

  lemma {:induction false} FillKeysAt(configs: map<Key, nat>, keys: seq<Key>, id: nat, x: Key)
    ensures x in FillKeys(configs, keys, id) <==> x in keys || x in configs
    ensures x in keys ==> FillKeys(configs, keys, id)[x] == id
    ensures x !in keys && x in configs ==> FillKeys(configs, keys, id)[x] == configs[x]
  {
    if keys != [] {
      var n := |keys| - 1;
      FillKeysAt(configs, keys[..n], id, x);
      assert keys == keys[..n] + [keys[n]];
    }
  }

  /** The mux lists the key itself, or its loader brings it. */
  predicate ListedBy(mux: Mux, x: Key) {
    x in mux.ownKeys || (mux.loader.Loader? && x in mux.loader.keys)
  }

  /** The lookup knows exactly the keys that some mux lists. */
  lemma {:induction false} OnlyListedKeys(muxes: seq<Mux>, x: Key)
    ensures x in FillMuxes(muxes) <==> exists m :: 0 <= m < |muxes| && ListedBy(muxes[m], x)
  {
    if muxes != [] {
      var n := |muxes| - 1;
      OnlyListedKeys(muxes[..n], x);
      FillKeysAt(FillMuxes(muxes[..n]), MuxKeys(muxes[n]), muxes[n].id, x);
      assert forall m :: 0 <= m < n ==> muxes[..n][m] == muxes[m];
      assert x in MuxKeys(muxes[n]) <==> ListedBy(muxes[n], x);
    }
  }

  lemma {:induction false} ListedInMux(muxes: seq<Mux>, m: nat, x: Key)
    requires m < |muxes| && x in MuxKeys(muxes[m])
    ensures x in KeysOfMuxes(muxes)
  {
    var n := |muxes| - 1;
    if m < n {
      ListedInMux(muxes[..n], m, x);
    }
  }

  /** When no key is listed twice, the lookup sends each key to the mux that lists it. */
  lemma {:induction false} LookupFindsTheMux(muxes: seq<Mux>, m: nat, x: Key)
    requires AllDistinct(KeysOfMuxes(muxes)) && m < |muxes| && ListedBy(muxes[m], x)
    ensures x in FillMuxes(muxes) && FillMuxes(muxes)[x] == muxes[m].id
  {
    var n := |muxes| - 1;
    FillKeysAt(FillMuxes(muxes[..n]), MuxKeys(muxes[n]), muxes[n].id, x);
    if m < n {
      var before := KeysOfMuxes(muxes[..n]);
      assert KeysOfMuxes(muxes)[..|before|] == before;
      assert AllDistinct(before) by {
        assert forall i :: 0 <= i < |before| ==> KeysOfMuxes(muxes)[i] == before[i];
      }
      LookupFindsTheMux(muxes[..n], m, x);
      ListedInMux(muxes[..n], m, x);
      NotInBoth(before, MuxKeys(muxes[n]), x);
    }
  }

  lemma NotInBoth(a: seq<Key>, b: seq<Key>, x: Key)
    requires AllDistinct(a + b) && x in a
    ensures x !in b
  {
    var i :| 0 <= i < |a| && a[i] == x;
    assert (a + b)[i] == x;
    forall j | 0 <= j < |b|
      ensures b[j] != x
    {
      assert (a + b)[|a| + j] == b[j];
    }
  }
}
