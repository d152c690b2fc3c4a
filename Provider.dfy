/**
 * The versioned handle identifier provider: mints and registers handles for
 * DSpace objects, binds `canonical.N` handles to the versions of an item,
 * keeps the canonical handle on the latest version, repoints it when the
 * latest version is deleted, and keeps the `dc.identifier.uri` metadata in
 * step.
 *
 * The provider's collaborators are fields of one in-memory store: the
 * handle table, the version histories and each object's `identifier.uri`
 * values.
 */
module VersionedHandleProvider {
  import opened Wrappers
  import opened Objects
  import opened HandleStrings
  import opened VersionHistory
  import opened HandleTable

  /** The provider's errors, tagged with the id of the object it was handling. */
  datatype ProviderError =
    | CreateIdentifierError(objectId: nat)  // the RuntimeException of mint and register
    | DeleteIdentifierError(objectId: nat)  // the IdentifierException of delete

  /**
   * The loop of `populateHandleMetadata` that sets `identifierExists`: does
   * the handle URL already occur among the item's `identifier.uri` values?
   */
  method IdentifierExists(values: seq<string>, handleref: string) returns (found: bool)
    ensures found <==> handleref in values
  {
    found := false;
    for i := 0 to |values|
      invariant found <==> handleref in values[..i]
    {
      assert values[..i + 1] == values[..i] + [values[i]];
      if handleref == values[i] {
        found := true;
      }
    }
    assert values[..|values|] == values;
  }

  /** The `identifier.uri` values once `populateHandleMetadata` has run: the URL added if absent. */
  function WithIdentifierUri(values: seq<string>, handleref: string): (r: seq<string>)
    ensures handleref in r
    ensures values <= r && |r| <= |values| + 1
    ensures handleref in values ==> r == values
  {
    if handleref in values then values else values + [handleref]
  }

  /** The `identifier.uri` values of `o` in `us`. */
  function ValuesOf(us: map<Obj, seq<string>>, o: Obj): seq<string> {
    if o in us then us[o] else []
  }

  /** `us` once `populateHandleMetadata` has given `o` the URL `handleref`. */
  function WithUriOf(us: map<Obj, seq<string>>, o: Obj, handleref: string): map<Obj, seq<string>> {
    us[o := WithIdentifierUri(ValuesOf(us, o), handleref)]
  }

  /** The URL `populateHandleMetadata` writes for `o`: the canonical form of the canonical part of its handle. */
  function HandleUrl(urlPrefix: Option<string>, t: Table, o: Obj): string
    requires FindHandle(t, o).Some?
  {
    CanonicalForm(urlPrefix, Canonical(FindHandle(t, o).value))
  }

  /** Adding the handle URL a second time changes nothing. */
  lemma WithIdentifierUriIdempotent(values: seq<string>, handleref: string)
    ensures WithIdentifierUri(WithIdentifierUri(values, handleref), handleref) == WithIdentifierUri(values, handleref)
  {
  }

  /** Every version `canonical.N` of a work gets the URL of the canonical handle, not of its own handle. */
  lemma HandleUrlOfVersionedHandle(urlPrefix: Option<string>, t: Table, o: Obj, canonical: string, n: nat)
    requires SLASH in canonical && FindHandle(t, o) == Some(VersionedHandle(canonical, n))
    ensures HandleUrl(urlPrefix, t, o) == CanonicalForm(urlPrefix, canonical)
  {
    VersionedHandleRoundTrip(canonical, n);
  }

  /**
   * The canonical handle `makeIdentifierBasedOnHistory` derives for version
   * `v`: the canonical form of the handle of the version before `v`. `None`
   * when there is no version before `v` or its item has no handle, where the
   * source dereferences null.
   */
  function PreviousCanonical(t: Table, h: History, v: Version): (r: Option<string>)
    ensures r.None? <==> Previous(h, v.number).None? || FindHandle(t, Previous(h, v.number).value.item).None?
    ensures r.Some? ==> r.value <= FindHandle(t, Previous(h, v.number).value.item).value
  {
    var p := Previous(h, v.number);
    if p.None? then None
    else
      match FindHandle(t, p.value.item)
      case None => None
      case Some(handle) => Some(Canonical(handle))
  }

  /**
   * `getHistory(identifier)`: the history of the item the identifier
   * resolves to. `Err` when it resolves to an object that is not an item,
   * which the source casts to `Item`.
   */
  function HistoryOfResolved(t: Table, hs: seq<History>, identifier: string): (r: Result<Option<nat>, ProviderError>)
    ensures r.Err? <==> identifier in t.bound && !t.bound[identifier].Item?
    ensures identifier !in t.bound ==> r == Ok(None)
    ensures identifier in t.bound && t.bound[identifier].Item? ==> r == Ok(FindByItem(hs, t.bound[identifier]))
    ensures r.Ok? && r.value.Some? ==>
      r.value.value < |hs| && |hs[r.value.value]| > 0 && InHistory(hs[r.value.value], t.bound[identifier])
  {
    match Resolve(t, identifier)
    case None => Ok(None)
    case Some(o) => if o.Item? then Ok(FindByItem(hs, o)) else Err(CreateIdentifierError(o.id))
  }

  /**
   * `delete` moves the canonical handle when `dso` is an item whose history
   * has two or more versions and whose item is the latest one.
   */
  function MovesCanonicalOnDelete(hs: seq<History>, dso: Obj): (b: bool)
    ensures b ==> HistoryOf(hs, dso).Some?
    ensures b && DistinctNumbers(hs[HistoryOf(hs, dso).value]) ==>
      var h := hs[HistoryOf(hs, dso).value];
      Previous(h, Latest(h).number).Some?
  {
    var history := HistoryOf(hs, dso);
    if history.None? then false
    else
      var h := hs[history.value];
      if |h| > 1 && DistinctNumbers(h) then
        PreviousOfLatestExists(h);
        Latest(h).item == dso
      else
        Latest(h).item == dso && |h| > 1
  }

  /**
   * The handle table `makeIdentifierBasedOnHistory` leaves for version `v`
   * of `h`, whose item is being minted. With `canonical` derived from the
   * previous version's handle: when the previous version is the first one,
   * `canonical.P` is created for its item unless that handle already
   * resolves; then `canonical.V` is created for `v`'s item, or repointed to
   * it when it already resolves. `None` when no canonical handle can be
   * derived.
   */
  function BasedOnHistory(t: Table, h: History, v: Version): (r: Option<Table>)
    ensures r.None? <==> PreviousCanonical(t, h, v).None?
    ensures r.Some? ==>
      var canonical := PreviousCanonical(t, h, v).value;
      var p := Previous(h, v.number).value;
      var idPrev := VersionedHandle(canonical, p.number);
      var idNew := VersionedHandle(canonical, v.number);
      var backfill := IsFirst(h, Some(p)) && idPrev !in t.bound;
      r.value.bound == (if backfill then t.bound[idPrev := p.item] else t.bound)[idNew := v.item]
  {
    var canonical := PreviousCanonical(t, h, v);
    if canonical.None? then None
    else
      var p := Previous(h, v.number).value;
      var idPrev := VersionedHandle(canonical.value, p.number);
      var withPrevious := if IsFirst(h, Some(p)) && idPrev !in t.bound then Create(t, p.item, idPrev) else t;
      var idNew := VersionedHandle(canonical.value, v.number);
      Some(if idNew !in withPrevious.bound then Create(withPrevious, v.item, idNew) else Repoint(withPrevious, idNew, v.item))
  }

  /** The table `BasedOnHistory` leaves is consistent, and the minted item has a handle in it. */
  lemma BasedOnHistoryKeepsConsistent(t: Table, h: History, v: Version)
    requires Consistent(t)
    ensures BasedOnHistory(t, h, v).Some? ==>
      Consistent(BasedOnHistory(t, h, v).value) && FindHandle(BasedOnHistory(t, h, v).value, v.item).Some?
  {
    var canonical := PreviousCanonical(t, h, v);
    if canonical.Some? {
      var p := Previous(h, v.number).value;
      var idPrev := VersionedHandle(canonical.value, p.number);
      var withPrevious := t;
      if IsFirst(h, Some(p)) && idPrev !in t.bound {
        CreateKeepsConsistent(t, p.item, idPrev);
        withPrevious := Create(t, p.item, idPrev);
      }
      var idNew := VersionedHandle(canonical.value, v.number);
      if idNew !in withPrevious.bound {
        CreateKeepsConsistent(withPrevious, v.item, idNew);
      } else {
        RepointKeepsConsistent(withPrevious, idNew, v.item);
      }
      BoundObjectHasHandle(BasedOnHistory(t, h, v).value, idNew);
    }
  }

  /** The handle table `mint` leaves; `None` when it fails. */
  function Minted(t: Table, hs: seq<History>, dso: Obj, freshHandle: string): (r: Option<Table>)
    requires freshHandle !in t.bound
    ensures FindHandle(t, dso).Some? ==> r == Some(t)
    ensures r.None? ==> FindHandle(t, dso).None? && HistoryOf(hs, dso).Some?
  {
    if FindHandle(t, dso).Some? then Some(t)
    else
      match HistoryOf(hs, dso)
      case None => Some(Create(t, dso, freshHandle))
      case Some(hid) => BasedOnHistory(t, hs[hid], VersionOf(hs[hid], dso).value)
  }

  /** Whatever path `mint` takes, a successful mint leaves the object with a handle. */
  lemma MintedHasHandle(t: Table, hs: seq<History>, dso: Obj, freshHandle: string)
    requires Consistent(t) && freshHandle !in t.bound
    ensures Minted(t, hs, dso, freshHandle).Some? ==>
      Consistent(Minted(t, hs, dso, freshHandle).value) && FindHandle(Minted(t, hs, dso, freshHandle).value, dso).Some?
  {
    if FindHandle(t, dso).None? {
      var history := HistoryOf(hs, dso);
      if history.None? {
        CreateKeepsConsistent(t, dso, freshHandle);
      } else {
        BasedOnHistoryKeepsConsistent(t, hs[history.value], VersionOf(hs[history.value], dso).value);
      }
    }
  }

  /**
   * The handle table the backfill of `register(dso)` leaves for an item in
   * history `h`: when the previous version's item has no handle (as after a
   * switch from the plain handle provider), that item's versioned handles
   * made from the history; otherwise `t` unchanged. `None` when making them
   * fails.
   */
  function Backfilled(t: Table, h: History, dso: Obj): (r: Option<Table>)
    requires VersionOf(h, dso).Some?
    ensures
      var p := Previous(h, VersionOf(h, dso).value.number);
      (p.None? || FindHandle(t, p.value.item).Some? ==> r == Some(t)) &&
      (r.None? ==> p.Some? && FindHandle(t, p.value.item).None?)
  {
    var p := Previous(h, VersionOf(h, dso).value.number);
    if p.Some? && FindHandle(t, p.value.item).None? then
      assert p.value in h;
      BasedOnHistory(t, h, VersionOf(h, p.value.item).value)
    else
      Some(t)
  }

  /**
   * The handle table `register(dso)` leaves for an item in history `h` once
   * it has minted (`t`): the canonical part of the item's handle repointed
   * to it, then `Backfilled`.
   */
  function MovedToVersion(t: Table, h: History, dso: Obj): (r: Option<Table>)
    requires FindHandle(t, dso).Some? && VersionOf(h, dso).Some?
    ensures Previous(h, VersionOf(h, dso).value.number).None? ==> r == Some(Repoint(t, Canonical(FindHandle(t, dso).value), dso))
  {
    Backfilled(Repoint(t, Canonical(FindHandle(t, dso).value), dso), h, dso)
  }

  /**
   * `register(dso)` moves the canonical handle to the new version: a
   * canonical handle of the usual form (with a slash and no version suffix)
   * that exists resolves to `dso` afterwards, whether or not the previous
   * item's handles had to be made.
   */
  lemma MovedCanonicalResolvesToVersion(t: Table, h: History, dso: Obj)
    requires FindHandle(t, dso).Some? && VersionOf(h, dso).Some?
    ensures
      var canonical := Canonical(FindHandle(t, dso).value);
      var moved := MovedToVersion(t, h, dso);
      moved.Some? && canonical in t.bound && SLASH in canonical && !IsVersioned(canonical) ==>
      Resolve(moved.value, canonical) == Some(dso)
  {
    var canonical := Canonical(FindHandle(t, dso).value);
    var repointed := Repoint(t, canonical, dso);
    var p := Previous(h, VersionOf(h, dso).value.number);
    if p.Some? && FindHandle(repointed, p.value.item).None? && canonical in t.bound && SLASH in canonical && !IsVersioned(canonical) {
      assert p.value in h;
      var pv := VersionOf(h, p.value.item).value;
      var pc := PreviousCanonical(repointed, h, pv);
      if pc.Some? {
        PlainHandleIsNotVersioned(pc.value, pv.number, canonical);
      }
    }
  }

  /**
   * The state a `register(dso, identifier)` of a versioned identifier leaves
   * (`restoreItAsCanonical` or `restoreItAsVersion`), from table `t` and
   * histories `hs` to `t'` and `hs'`; `passed` says whether it succeeded.
   * It fails when the canonical handle resolves to an object that is not an
   * item, or when another object holds the identifier. Otherwise the version
   * joins the history of the item the canonical handle resolves to and the
   * canonical handle moves to `dso` when the version is newer than all
   * others there (the corrected restore test, `RestoreMovesCanonical`; the
   * code as written never moves it), or the version starts a new history
   * and the canonical handle moves to `dso`.
   */
  ghost predicate RestoredVersioned(t: Table, hs: seq<History>, dso: Obj, identifier: string,
                                    passed: bool, t': Table, hs': seq<History>)
    requires HasVersionNumber(identifier)
  {
    var canonical := Canonical(identifier);
    var n := VersionNumber(identifier);
    var canonicalItem := Resolve(t, canonical);
    var created := CreateSupplied(t, dso, identifier);
    if canonicalItem.Some? && !canonicalItem.value.Item? then
      !passed && t' == t && hs' == hs
    else
      (passed <==> created.Ok?) &&
      (!passed ==> t' == t && hs' == hs) &&
      (passed ==>
        var history := if canonicalItem.None? then None else HistoryOf(hs, canonicalItem.value);
        if history.None? then
          hs' == hs + [[Version(n, dso)]] && t' == Repoint(created.value, canonical, dso)
        else
          var h := hs[history.value];
          hs' == hs[history.value := h + [Version(n, dso)]] &&
          t' == if RestoreMovesCanonical(h, n) then Repoint(created.value, canonical, dso) else created.value)
  }

  /** The canonical handle resolves to the item of the latest version of `h`. */
  ghost predicate CanonicalOnLatest(t: Table, h: History, canonical: string) {
    |h| > 0 && Resolve(t, canonical) == Some(Latest(h).item)
  }

  /**
   * With the corrected test, `restoreItAsVersion` keeps the canonical handle
   * on the latest version: binding the restored identifier and, when the
   * restored version is the newest, repointing the canonical handle to it
   * leaves the canonical handle on the latest item of the extended history.
   */
  lemma RestoreAsVersionKeepsCanonicalOnLatest(t: Table, h: History, v: Version, identifier: string, canonical: string)
    requires CanonicalOnLatest(t, h, canonical) && canonical != identifier
    requires CreateSupplied(t, v.item, identifier).Ok?
    ensures
      var created := CreateSupplied(t, v.item, identifier).value;
      var restored := if RestoreMovesCanonical(h, v.number) then Repoint(created, canonical, v.item) else created;
      CanonicalOnLatest(restored, h + [v], canonical)
  {
    RestoreKeepsCanonicalOnLatest(h, v);
  }

  /**
   * A `register(dso, identifier)` of a versioned identifier into an existing
   * history keeps the canonical handle on that history's latest version.
   */
  lemma RestoredVersionedKeepsCanonicalOnLatest(t: Table, hs: seq<History>, dso: Obj, identifier: string,
                                                t': Table, hs': seq<History>, hid: nat)
    requires IsVersioned(identifier) && HasVersionNumber(identifier)
    requires RestoredVersioned(t, hs, dso, identifier, true, t', hs')
    requires Resolve(t, Canonical(identifier)).Some? && HistoryOf(hs, Resolve(t, Canonical(identifier)).value) == Some(hid)
    requires CanonicalOnLatest(t, hs[hid], Canonical(identifier))
    ensures hid < |hs'| && CanonicalOnLatest(t', hs'[hid], Canonical(identifier))
  {
    VersionPatternIff(identifier);
    CanonicalSplitsVersioned(identifier);
    RestoreAsVersionKeepsCanonicalOnLatest(t, hs[hid], Version(VersionNumber(identifier), dso), identifier, Canonical(identifier));
  }

  class Provider {
    /** The handle service's table. */
    var table: Table
    /** The version history service's histories. */
    var histories: seq<History>
    /** Each object's `dc.identifier.uri` values. */
    var uris: map<Obj, seq<string>>
    /** The configured `handle.canonical.prefix`. */
    const urlPrefix: Option<string>

    ghost predicate Valid()
      reads this`table
    {
      Consistent(table)
    }

    function UrisOf(o: Obj): seq<string>
      reads this`uris
    {
      ValuesOf(uris, o)
    }

    constructor (urlPrefix: Option<string>, table: Table, histories: seq<History>, uris: map<Obj, seq<string>>)
      requires Consistent(table)
      ensures Valid()
      ensures this.urlPrefix == urlPrefix && this.table == table
      ensures this.histories == histories && this.uris == uris
    {
      this.urlPrefix := urlPrefix;
      this.table := table;
      this.histories := histories;
      this.uris := uris;
    }

    /**
     * `createNewIdentifier`: a handle of the handle service's choosing
     * (`freshHandle`) when none is supplied, otherwise the supplied one,
     * which fails when another object already holds it.
     */
    method CreateNewIdentifier(dso: Obj, handleId: Option<string>, freshHandle: string)
      returns (r: Result<string, ProviderError>)
      requires Valid()
      requires handleId.None? ==> freshHandle !in table.bound
      modifies this`table
      ensures Valid()
      ensures handleId.None? ==> r == Ok(freshHandle) && table == Create(old(table), dso, freshHandle)
      ensures handleId.Some? ==>
        var created := CreateSupplied(old(table), dso, handleId.value);
        (created.Err? ==> r == Err(CreateIdentifierError(dso.id)) && table == old(table)) &&
        (created.Ok? ==> r == Ok(handleId.value) && table == created.value)
      ensures r.Ok? ==> Resolve(table, r.value) == Some(dso) && FindHandle(table, dso).Some?
    {
      if handleId.None? {
        CreateKeepsConsistent(table, dso, freshHandle);
        table := Create(table, dso, freshHandle);
        r := Ok(freshHandle);
      } else {
        var created := CreateSupplied(table, dso, handleId.value);
        if created.Err? {
          return Err(CreateIdentifierError(dso.id));
        }
        if handleId.value !in table.bound {
          CreateKeepsConsistent(table, dso, handleId.value);
        }
        table := created.value;
        r := Ok(handleId.value);
      }
      FindHandleIffBound(table, dso);
    }

    /** The handle service's `modifyHandleDSpaceObject`: `handle` now resolves to `o`, when it exists. */
    method ModifyHandleDSpaceObject(handle: string, o: Obj)
      requires Valid()
      modifies this`table
      ensures Valid()
      ensures table == Repoint(old(table), handle, o)
      ensures handle in old(table.bound) ==> FindHandle(table, o) == Some(handle)
    {
      RepointKeepsConsistent(table, handle, o);
      table := Repoint(table, handle, o);
    }

    /**
     * `populateHandleMetadata`: adds the canonical URL of the item's handle
     * to its `identifier.uri` values unless it is already there. Fails when
     * the item has no handle.
     */
    method PopulateHandleMetadata(item: Obj) returns (r: Outcome<ProviderError>)
      modifies this`uris
      ensures r.Fail? <==> FindHandle(table, item).None?
      ensures r.Fail? ==> uris == old(uris)
      ensures r.Pass? ==> uris == WithUriOf(old(uris), item, HandleUrl(urlPrefix, table, item))
    {
      var handle := FindHandle(table, item);
      if handle.None? {
        return Fail(CreateIdentifierError(item.id));
      }
      var handleref := HandleUrl(urlPrefix, table, item);
      var identifierExists := IdentifierExists(UrisOf(item), handleref);
      if !identifierExists {
        uris := uris[item := UrisOf(item) + [handleref]];
      }
      r := Pass;
    }

    /** `modifyHandleMetadata`: the item keeps exactly one `identifier.uri`, the handle's URL. */
    method ModifyHandleMetadata(item: Obj, handle: string)
      modifies this`uris
      ensures UrisOf(item) == [CanonicalForm(urlPrefix, handle)]
      ensures uris == old(uris)[item := UrisOf(item)]
    {
      uris := uris[item := [CanonicalForm(urlPrefix, handle)]];
    }

    /**
     * `makeIdentifierBasedOnHistory` for the version of `dso` in history
     * `hid`: the table becomes the one `BasedOnHistory` describes, and
     * `handleId` is returned unchanged. Fails, leaving the table alone, when
     * there is no previous version or its item has no handle.
     */
    method MakeIdentifierBasedOnHistory(dso: Obj, handleId: Option<string>, hid: nat)
      returns (r: Result<Option<string>, ProviderError>)
      requires Valid()
      requires hid < |histories| && VersionOf(histories[hid], dso).Some?
      modifies this`table
      ensures Valid()
      ensures
        var made := BasedOnHistory(old(table), histories[hid], VersionOf(histories[hid], dso).value);
        (made.None? ==> r == Err(CreateIdentifierError(dso.id)) && table == old(table)) &&
        (made.Some? ==> r == Ok(handleId) && table == made.value)
    {
      var h := histories[hid];
      var version := VersionOf(h, dso).value;
      var previous := Previous(h, version.number);
      if previous.None? {
        return Err(CreateIdentifierError(dso.id));
      }
      var previousHandle := FindHandle(table, previous.value.item);
      if previousHandle.None? {
        return Err(CreateIdentifierError(dso.id));
      }
      var canonical := Canonical(previousHandle.value);
      if IsFirst(h, previous) {
        var identifierPreviousItem := VersionedHandle(canonical, previous.value.number);
        if Resolve(table, identifierPreviousItem).None? {
          CreateKeepsConsistent(table, previous.value.item, identifierPreviousItem);
          table := Create(table, previous.value.item, identifierPreviousItem);
        }
      }
      var idNew := VersionedHandle(canonical, version.number);
      if Resolve(table, idNew).None? {
        CreateKeepsConsistent(table, dso, idNew);
        table := Create(table, dso, idNew);
      } else {
        RepointKeepsConsistent(table, idNew, dso);
        table := Repoint(table, idNew, dso);
      }
      r := Ok(handleId);
    }

    /**
     * `mint`: an object that already has a handle gets it back and nothing
     * changes. Otherwise an item with a version history gets its
     * `canonical.V` handle and the result is null (`None`); any other object
     * gets the fresh handle the handle service hands out. The table becomes
     * the one `Minted` describes, and is left alone on failure.
     */
    method Mint(dso: Obj, freshHandle: string) returns (r: Result<Option<string>, ProviderError>)
      requires Valid() && freshHandle !in table.bound
      modifies this`table
      ensures Valid()
      ensures
        var minted := Minted(old(table), histories, dso, freshHandle);
        (r.Err? <==> minted.None?) && table == (if minted.Some? then minted.value else old(table))
      ensures old(FindHandle(table, dso)).Some? ==> r == Ok(old(FindHandle(table, dso)))
      ensures old(FindHandle(table, dso)).None? && HistoryOf(histories, dso).None? ==> r == Ok(Some(freshHandle))
      ensures old(FindHandle(table, dso)).None? && HistoryOf(histories, dso).Some? && r.Ok? ==> r.value == None
      ensures r.Ok? ==> FindHandle(table, dso).Some?
      ensures r.Ok? && r.value.Some? ==> FindHandle(table, dso) == r.value
    {
      var handle := FindHandle(table, dso);
      if handle.Some? {
        return Ok(handle);
      }
      var history := HistoryOf(histories, dso);
      if history.Some? {
        r := MakeIdentifierBasedOnHistory(dso, None, history.value);
        BasedOnHistoryKeepsConsistent(old(table), histories[history.value], VersionOf(histories[history.value], dso).value);
      } else {
        var created := CreateNewIdentifier(dso, None, freshHandle);
        assert HandlesOf(table, dso) == [freshHandle];
        r := Ok(Some(created.value));
      }
    }

    /**
     * The part of `register(dso)` for an item with a version history: moves
     * the canonical part of the item's own handle to it, rewrites the first
     * version's `identifier.uri` to `canonical.1`, and makes the handles of a
     * previous item left without one. The table becomes the one
     * `MovedToVersion` describes; when making those handles fails it is left
     * with the canonical handle repointed.
     */
    method MoveCanonicalToVersion(dso: Obj, hid: nat) returns (r: Outcome<ProviderError>)
      requires Valid() && FindHandle(table, dso).Some?
      requires hid < |histories| && VersionOf(histories[hid], dso).Some?
      modifies this`table, this`uris
      ensures Valid()
      ensures
        var moved := MovedToVersion(old(table), histories[hid], dso);
        (r.Fail? <==> moved.None?) &&
        (moved.Some? ==> table == moved.value) &&
        (moved.None? ==> table == Repoint(old(table), Canonical(old(FindHandle(table, dso)).value), dso))
      ensures
        var h := histories[hid];
        var p := Previous(h, VersionOf(h, dso).value.number);
        var canonical := Canonical(old(FindHandle(table, dso)).value);
        uris == if IsFirst(h, p) then old(uris)[p.value.item := [CanonicalForm(urlPrefix, canonical + [DOT] + "1")]] else old(uris)
    {
      var own := FindHandle(table, dso);
      var canonical := Canonical(own.value);
      var h := histories[hid];
      var version := VersionOf(h, dso).value;
      var previous := Previous(h, version.number);
      // the canonical handle now names the new item
      ModifyHandleDSpaceObject(canonical, dso);
      if IsFirst(h, previous) {
        ModifyHandleMetadata(previous.value.item, canonical + [DOT] + "1");
      }
      r := BackfillPrevious(dso, hid, canonical);
    }

    /**
     * The end of `register(dso)` for an item with a history: a previous
     * item left without a handle gets its versioned handles
     * (`makeIdentifierBasedOnHistory`). The table becomes the one
     * `Backfilled` describes, and is left alone on failure.
     */
    method BackfillPrevious(dso: Obj, hid: nat, canonical: string) returns (r: Outcome<ProviderError>)
      requires Valid() && hid < |histories| && VersionOf(histories[hid], dso).Some?
      modifies this`table
      ensures Valid()
      ensures
        var backfilled := Backfilled(old(table), histories[hid], dso);
        (r.Fail? <==> backfilled.None?) && table == (if backfilled.Some? then backfilled.value else old(table))
    {
      var h := histories[hid];
      var previous := Previous(h, VersionOf(h, dso).value.number);
      r := Pass;
      if previous.Some? && FindHandle(table, previous.value.item).None? {
        assert previous.value in h;
        var made := MakeIdentifierBasedOnHistory(previous.value.item, Some(canonical), hid);
        if made.Err? {
          r := Fail(CreateIdentifierError(dso.id));
        }
      }
    }

    /**
     * `register(dso)`: mints, and for an item with a version history moves
     * its canonical handle to it (`MoveCanonicalToVersion`); an item then
     * gets its canonical URL in its metadata.
     */
    method Register(dso: Obj, freshHandle: string) returns (r: Result<Option<string>, ProviderError>)
      requires Valid() && freshHandle !in table.bound
      modifies this`table, this`uris
      ensures Valid()
      ensures r.Ok? ==> FindHandle(table, dso).Some?
      ensures old(FindHandle(table, dso)).Some? && !dso.Item? ==>
        r == Ok(old(FindHandle(table, dso))) && table == old(table) && uris == old(uris)
      ensures old(FindHandle(table, dso)).Some? && r.Ok? ==> r == Ok(old(FindHandle(table, dso)))
      ensures Minted(old(table), histories, dso, freshHandle).None? ==> r.Err? && table == old(table) && uris == old(uris)
      ensures HistoryOf(histories, dso).None? ==>
        r.Ok? && r.value.Some? && FindHandle(table, dso) == r.value && Resolve(table, r.value.value) == Some(dso) &&
        Minted(old(table), histories, dso, freshHandle) == Some(table) &&
        uris == if dso.Item? then WithUriOf(old(uris), dso, HandleUrl(urlPrefix, table, dso)) else old(uris)
      ensures old(FindHandle(table, dso)).None? && HistoryOf(histories, dso).Some? && r.Ok? ==> r.value == None
      ensures HistoryOf(histories, dso).Some? ==>
        var h := histories[HistoryOf(histories, dso).value];
        var minted := Minted(old(table), histories, dso, freshHandle);
        (minted.Some? ==> FindHandle(minted.value, dso).Some?) &&
        (r.Ok? <==> minted.Some? && MovedToVersion(minted.value, h, dso).Some? &&
                    FindHandle(MovedToVersion(minted.value, h, dso).value, dso).Some?) &&
        (r.Ok? ==> Some(table) == MovedToVersion(minted.value, h, dso))
      ensures HistoryOf(histories, dso).Some? && r.Ok? ==>
        var h := histories[HistoryOf(histories, dso).value];
        var p := Previous(h, VersionOf(h, dso).value.number);
        var canonical := Canonical(FindHandle(Minted(old(table), histories, dso, freshHandle).value, dso).value);
        var marked := if IsFirst(h, p) then old(uris)[p.value.item := [CanonicalForm(urlPrefix, canonical + [DOT] + "1")]] else old(uris);
        uris == WithUriOf(marked, dso, HandleUrl(urlPrefix, table, dso))
      ensures HistoryOf(histories, dso).Some? && r.Ok? ==>
        var minted := Minted(old(table), histories, dso, freshHandle).value;
        var canonical := Canonical(FindHandle(minted, dso).value);
        canonical in minted.bound && SLASH in canonical && !IsVersioned(canonical) ==>
        Resolve(table, canonical) == Some(dso)
    {
      r := Mint(dso, freshHandle);
      if r.Err? {
        return Err(CreateIdentifierError(dso.id));
      }
      ghost var minted := table;
      MintedHasHandle(old(table), histories, dso, freshHandle);
      FindHandleIffBound(table, dso);
      if dso.Item? {
        var history := FindByItem(histories, dso);
        if history.Some? {
          var moved := MoveCanonicalToVersion(dso, history.value);
          if moved.Fail? {
            return Err(CreateIdentifierError(dso.id));
          }
          MovedCanonicalResolvesToVersion(minted, histories[history.value], dso);
        }
        var populated := PopulateHandleMetadata(dso);
        if populated.Fail? {
          return Err(CreateIdentifierError(dso.id));
        }
      }
    }

    /**
     * The step `restoreItAsVersion`, `restoreItAsCanonical` and
     * `register(dso, identifier)` share: `createNewIdentifier` with the
     * supplied handle, then `populateHandleMetadata`.
     */
    method CreateWithMetadata(dso: Obj, identifier: string) returns (r: Outcome<ProviderError>)
      requires Valid()
      modifies this`table, this`uris
      ensures Valid()
      ensures r.Fail? <==> CreateSupplied(old(table), dso, identifier).Err?
      ensures r.Fail? ==> table == old(table) && uris == old(uris)
      ensures r.Pass? ==>
        CreateSupplied(old(table), dso, identifier).Ok? &&
        table == CreateSupplied(old(table), dso, identifier).value &&
        Resolve(table, identifier) == Some(dso) && FindHandle(table, dso).Some? &&
        uris == WithUriOf(old(uris), dso, HandleUrl(urlPrefix, table, dso))
    {
      var created := CreateNewIdentifier(dso, Some(identifier), "");
      if created.Err? {
        return Fail(created.error);
      }
      ghost var withIdentifier := table;
      var populated := PopulateHandleMetadata(dso);
      if populated.Fail? {
        assert false;
      }
      assert table == withIdentifier;
      r := Pass;
    }

    /**
     * `restoreItAsVersion`: binds `identifier` to `dso`, gives the item its
     * canonical URL, records `dso` as version N (the identifier's number) of
     * history `hid`, and moves `canonical` to `dso` when N is above every
     * version already in the history. This is the corrected test (see
     * `RestoreMovesCanonical`); `RestoreItAsVersionAsWritten` is the code as
     * written.
     */
    method RestoreItAsVersion(dso: Obj, identifier: string, canonical: string, hid: nat)
      returns (r: Outcome<ProviderError>)
      requires Valid() && HasVersionNumber(identifier) && hid < |histories|
      modifies this`table, this`histories, this`uris
      ensures Valid()
      ensures r.Fail? <==> CreateSupplied(old(table), dso, identifier).Err?
      ensures r.Fail? ==> table == old(table) && histories == old(histories) && uris == old(uris)
      ensures r.Pass? ==>
        CreateSupplied(old(table), dso, identifier).Ok? &&
        var h := old(histories)[hid];
        var n := VersionNumber(identifier);
        var created := CreateSupplied(old(table), dso, identifier).value;
        histories == old(histories)[hid := h + [Version(n, dso)]] &&
        table == (if RestoreMovesCanonical(h, n) then Repoint(created, canonical, dso) else created) &&
        uris == WithUriOf(old(uris), dso, HandleUrl(urlPrefix, created, dso))
    {
      r := CreateWithMetadata(dso, identifier);
      if r.Fail? {
        return;
      }
      ghost var populatedUris := uris;
      var versionNumber := VersionNumber(identifier);
      var h := histories[hid];
      histories := histories[hid := h + [Version(versionNumber, dso)]];
      if RestoreMovesCanonical(h, versionNumber) {
        RepointKeepsConsistent(table, canonical, dso);
        table := Repoint(table, canonical, dso);
      }
      assert uris == populatedUris;
    }

    /**
     * `restoreItAsVersion` as written: the latest version is read after
     * version N has been added, so the test `latest < N` never holds and the
     * canonical handle is never moved, whatever N is.
     */
    method RestoreItAsVersionAsWritten(dso: Obj, identifier: string, canonical: string, hid: nat)
      returns (r: Outcome<ProviderError>)
      requires Valid() && HasVersionNumber(identifier) && hid < |histories|
      modifies this`table, this`histories, this`uris
      ensures Valid()
      ensures r.Fail? <==> CreateSupplied(old(table), dso, identifier).Err?
      ensures r.Fail? ==> table == old(table) && histories == old(histories) && uris == old(uris)
      ensures r.Pass? ==>
        CreateSupplied(old(table), dso, identifier).Ok? &&
        var created := CreateSupplied(old(table), dso, identifier).value;
        histories == old(histories)[hid := old(histories)[hid] + [Version(VersionNumber(identifier), dso)]] &&
        table == created &&
        uris == WithUriOf(old(uris), dso, HandleUrl(urlPrefix, created, dso))
    {
      r := CreateWithMetadata(dso, identifier);
      if r.Fail? {
        return;
      }
      var versionNumber := VersionNumber(identifier);
      var h := histories[hid];
      histories := histories[hid := h + [Version(versionNumber, dso)]];
      var latest := Latest(histories[hid]);
      AsWrittenRestoreNeverMovesCanonical(h, Version(versionNumber, dso));
      if latest.number < versionNumber {
        // the repoint of line 219 is never reached
        assert false;
      }
    }

    /**
     * `restoreItAsCanonical`: binds `identifier` to `dso`, gives the item its
     * canonical URL, starts a new history whose one version is `dso` with the
     * identifier's number, and moves `canonical` to `dso`.
     */
    method RestoreItAsCanonical(dso: Obj, identifier: string, canonical: string)
      returns (r: Outcome<ProviderError>)
      requires Valid() && HasVersionNumber(identifier)
      modifies this`table, this`histories, this`uris
      ensures Valid()
      ensures r.Fail? <==> CreateSupplied(old(table), dso, identifier).Err?
      ensures r.Fail? ==> table == old(table) && histories == old(histories) && uris == old(uris)
      ensures r.Pass? ==>
        CreateSupplied(old(table), dso, identifier).Ok? &&
        var created := CreateSupplied(old(table), dso, identifier).value;
        histories == old(histories) + [[Version(VersionNumber(identifier), dso)]] &&
        table == Repoint(created, canonical, dso) &&
        uris == WithUriOf(old(uris), dso, HandleUrl(urlPrefix, created, dso))
      ensures r.Pass? && canonical in table.bound ==> Resolve(table, canonical) == Some(dso)
    {
      r := CreateWithMetadata(dso, identifier);
      if r.Fail? {
        return;
      }
      ghost var populatedUris := uris;
      var versionNumber := VersionNumber(identifier);
      histories := histories + [[Version(versionNumber, dso)]];
      RepointKeepsConsistent(table, canonical, dso);
      table := Repoint(table, canonical, dso);
      assert uris == populatedUris;
    }

    /**
     * The canonical branch of `register(dso, identifier)`: an unversioned
     * handle of an item with a history is restored as the version after the
     * latest one, `canonical.N`, and the canonical handle follows it.
     */
    method RestoreNextVersion(dso: Obj, canonical: string, hid: nat)
      returns (r: Outcome<ProviderError>, identifier: string)
      requires Valid() && canonical in table.bound
      requires hid < |histories| && |histories[hid]| > 0
      modifies this`table, this`histories, this`uris
      ensures Valid()
      ensures identifier == VersionedHandle(canonical, Latest(old(histories)[hid]).number + 1)
      ensures r.Fail? <==> CreateSupplied(old(table), dso, identifier).Err?
      ensures r.Fail? ==> table == old(table) && histories == old(histories) && uris == old(uris)
      ensures r.Pass? ==> histories == old(histories)[hid := old(histories)[hid] + [Version(Latest(old(histories)[hid]).number + 1, dso)]]
      ensures r.Pass? ==>
        CreateSupplied(old(table), dso, identifier).Ok? &&
        var created := CreateSupplied(old(table), dso, identifier).value;
        table == Repoint(created, canonical, dso) &&
        uris == WithUriOf(old(uris), dso, HandleUrl(urlPrefix, created, dso))
      ensures r.Pass? ==> Resolve(table, identifier) == Some(dso) && Resolve(table, canonical) == Some(dso)
    {
      var h := histories[hid];
      var newVersionNumber := Latest(h).number + 1;
      identifier := VersionedHandle(canonical, newVersionNumber);
      VersionedHandleHasNumber(canonical, newVersionNumber);
      assert identifier == VersionedHandle(canonical, Latest(old(histories)[hid]).number + 1);
      assert RestoreMovesCanonical(h, newVersionNumber);
      assert |identifier| > |canonical|;
      r := RestoreItAsVersion(dso, identifier, canonical, hid);
    }

    /**
     * The versioned branch of `register(dso, identifier)`: the version is
     * restored into the history of the item the canonical handle resolves
     * to, or as the first version of a new history when the canonical handle
     * is unbound or its item has no history (`RestoredVersioned`). Fails when
     * the canonical handle resolves to an object that is not an item.
     */
    method RestoreVersionedHandle(dso: Obj, identifier: string) returns (r: Outcome<ProviderError>)
      requires Valid() && IsVersioned(identifier) && HasVersionNumber(identifier)
      modifies this`table, this`histories, this`uris
      ensures Valid()
      ensures RestoredVersioned(old(table), old(histories), dso, identifier, r.Pass?, table, histories)
      ensures r.Fail? ==> uris == old(uris)
      ensures r.Pass? ==>
        CreateSupplied(old(table), dso, identifier).Ok? &&
        uris == WithUriOf(old(uris), dso, HandleUrl(urlPrefix, CreateSupplied(old(table), dso, identifier).value, dso))
    {
      var canonical := Canonical(identifier);
      var canonicalItem := Resolve(table, canonical);
      if canonicalItem.None? {
        r := RestoreItAsCanonical(dso, identifier, canonical);
      } else if !canonicalItem.value.Item? {
        return Fail(CreateIdentifierError(dso.id));
      } else {
        var history := FindByItem(histories, canonicalItem.value);
        if history.None? {
          r := RestoreItAsCanonical(dso, identifier, canonical);
        } else {
          r := RestoreItAsVersion(dso, identifier, canonical, history.value);
        }
      }
    }

    /**
     * `register(dso, identifier)`, as used when restoring from an archive.
     * Fails for an object that is not an item and for an identifier that
     * resolves to one. A canonical handle of an item with a history is
     * restored as the next version; a versioned handle is restored into the
     * history of the item its canonical handle resolves to, or as the first
     * version of a new history; any other handle is simply bound to `dso`.
     */
    method RegisterIdentifier(dso: Obj, identifier: string) returns (r: Outcome<ProviderError>)
      requires Valid()
      modifies this`table, this`histories, this`uris
      ensures Valid()
      ensures !dso.Item? || HistoryOfResolved(old(table), old(histories), identifier).Err? ==>
        r.Fail? && table == old(table) && histories == old(histories) && uris == old(uris)
      ensures
        var history := HistoryOfResolved(old(table), old(histories), identifier);
        dso.Item? && history.Ok? && history.value.Some? && !IsVersioned(identifier) ==>
        var hid := history.value.value;
        var n := Latest(old(histories)[hid]).number + 1;
        var created := CreateSupplied(old(table), dso, VersionedHandle(identifier, n));
        (r.Fail? <==> created.Err?) &&
        (r.Fail? ==> table == old(table) && histories == old(histories) && uris == old(uris)) &&
        (r.Pass? ==>
          histories == old(histories)[hid := old(histories)[hid] + [Version(n, dso)]] &&
          table == Repoint(created.value, identifier, dso) &&
          uris == WithUriOf(old(uris), dso, HandleUrl(urlPrefix, created.value, dso)) &&
          Resolve(table, VersionedHandle(identifier, n)) == Some(dso) &&
          Resolve(table, identifier) == Some(dso))
      ensures
        var history := HistoryOfResolved(old(table), old(histories), identifier);
        dso.Item? && history.Ok? && IsVersioned(identifier) ==>
        HasVersionNumber(identifier) &&
        RestoredVersioned(old(table), old(histories), dso, identifier, r.Pass?, table, histories) &&
        (r.Fail? ==> uris == old(uris)) &&
        (r.Pass? ==>
          CreateSupplied(old(table), dso, identifier).Ok? &&
          uris == WithUriOf(old(uris), dso, HandleUrl(urlPrefix, CreateSupplied(old(table), dso, identifier).value, dso)))
      ensures
        var history := HistoryOfResolved(old(table), old(histories), identifier);
        dso.Item? && history == Ok(None) && !IsVersioned(identifier) ==>
        var created := CreateSupplied(old(table), dso, identifier);
        (r.Fail? <==> created.Err?) &&
        (r.Fail? ==> table == old(table) && histories == old(histories) && uris == old(uris)) &&
        (r.Pass? ==>
          histories == old(histories) && table == created.value && Resolve(table, identifier) == Some(dso) &&
          uris == WithUriOf(old(uris), dso, HandleUrl(urlPrefix, table, dso)))
    {
      if !dso.Item? {
        return Fail(CreateIdentifierError(dso.id));
      }
      var itemHistory := HistoryOfResolved(table, histories, identifier);
      if itemHistory.Err? {
        return Fail(itemHistory.error);
      }
      if !IsVersioned(identifier) && itemHistory.value.Some? {
        var restored;
        r, restored := RestoreNextVersion(dso, identifier, itemHistory.value.value);
      } else if IsVersioned(identifier) {
        VersionedHasVersionNumber(identifier);
        r := RestoreVersionedHandle(dso, identifier);
      } else {
        r := CreateWithMetadata(dso, identifier);
      }
    }

    /**
     * `delete(dso)`: when `dso` is the item of the latest of two or more
     * versions, the canonical handle moves to the item of the version before
     * it. Fails when there is no such version or its item has no handle.
     */
    method Delete(dso: Obj) returns (r: Outcome<ProviderError>)
      requires Valid()
      modifies this`table
      ensures Valid()
      ensures !MovesCanonicalOnDelete(histories, dso) ==> r.Pass? && table == old(table)
      ensures MovesCanonicalOnDelete(histories, dso) ==>
        var h := histories[HistoryOf(histories, dso).value];
        var p := Previous(h, Latest(h).number);
        (r.Fail? <==> p.None? || FindHandle(old(table), p.value.item).None?) &&
        (r.Fail? ==> table == old(table)) &&
        (r.Pass? ==>
          var canonical := Canonical(FindHandle(old(table), p.value.item).value);
          table == Repoint(old(table), canonical, p.value.item) &&
          (canonical in old(table.bound) ==> Resolve(table, canonical) == Some(p.value.item)))
      ensures MovesCanonicalOnDelete(histories, dso) && DistinctNumbers(histories[HistoryOf(histories, dso).value]) ==>
        (r.Fail? <==> FindHandle(old(table), Previous(histories[HistoryOf(histories, dso).value], Latest(histories[HistoryOf(histories, dso).value]).number).value.item).None?)
    {
      r := Pass;
      if dso.Item? {
        var history := FindByItem(histories, dso);
        if history.Some? {
          var h := histories[history.value];
          var latest := Latest(h);
          if latest.item == dso && |h| > 1 {
            var previous := Previous(h, latest.number);
            if DistinctNumbers(h) {
              PreviousOfLatestExists(h);
            }
            if previous.None? {
              return Fail(DeleteIdentifierError(dso.id));
            }
            var handle := FindHandle(table, previous.value.item);
            if handle.None? {
              return Fail(DeleteIdentifierError(dso.id));
            }
            var canonical := Canonical(handle.value);
            RepointKeepsConsistent(table, canonical, previous.value.item);
            table := Repoint(table, canonical, previous.value.item);
          }
        }
      }
    }
  }
}
