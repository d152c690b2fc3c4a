/**
 * The handle service as the provider uses it: a table from handles to the
 * objects they resolve to, and for every object the list of its handles.
 * A created handle goes to the end of its owner's list; a handle repointed
 * by `modifyHandleDSpaceObject` goes to the front of its new owner's list.
 * The first handle of the list is what `getHandle()` and `findHandle`
 * answer; that a repointed handle becomes that first handle is an
 * assumption about the handle service, whose code is not part of this model.
 */
module HandleTable {
  import opened Wrappers
  import opened Objects

  datatype Table = Table(bound: map<string, Obj>, owned: map<Obj, seq<string>>)

  /** Why the handle service refused to create a handle. */
  datatype HandleError = HandleInUse(handle: string)

  /** The handles of `o`, oldest first. */
  function HandlesOf(t: Table, o: Obj): seq<string> {
    if o in t.owned then t.owned[o] else []
  }

  /** Both views of the table agree: a handle is in its object's list, and only there. */
  ghost predicate Consistent(t: Table) {
    (forall h :: h in t.bound ==> h in HandlesOf(t, t.bound[h])) &&
    (forall o, h :: o in t.owned && h in t.owned[o] ==> h in t.bound && t.bound[h] == o)
  }

  /** `resolveToObject`: the object a handle is bound to, `None` when unbound. */
  function Resolve(t: Table, h: string): (r: Option<Obj>)
    ensures r.Some? <==> h in t.bound
    ensures r.Some? ==> t.bound[h] == r.value
  {
    if h in t.bound then Some(t.bound[h]) else None
  }

  /** `getHandle()` / `findHandle`: the first handle of `o`, `None` when it has none. */
  function FindHandle(t: Table, o: Obj): (r: Option<string>)
    ensures r.Some? ==> r.value in HandlesOf(t, o)
    ensures r.None? <==> HandlesOf(t, o) == []
  {
    if HandlesOf(t, o) == [] then None else Some(HandlesOf(t, o)[0])
  }

  /** In a consistent table an object has a handle exactly when some handle resolves to it. */
  lemma FindHandleIffBound(t: Table, o: Obj)
    requires Consistent(t)
    ensures FindHandle(t, o).Some? <==> exists h :: h in t.bound && t.bound[h] == o
    ensures FindHandle(t, o).Some? ==> Resolve(t, FindHandle(t, o).value) == Some(o)
  {
    if h :| h in t.bound && t.bound[h] == o {
      assert h in HandlesOf(t, o);
    }
    if FindHandle(t, o).Some? {
      var h := FindHandle(t, o).value;
      assert o in t.owned && h in t.owned[o];
      assert h in t.bound && t.bound[h] == o;
    }
  }

  /** In a consistent table the object a handle resolves to has a handle of its own. */
  lemma BoundObjectHasHandle(t: Table, h: string)
    requires Consistent(t) && h in t.bound
    ensures FindHandle(t, t.bound[h]).Some?
  {
    assert h in HandlesOf(t, t.bound[h]);
  }

  /** `createHandle` of a handle nobody holds: binds it and appends it to `o`'s list. */
  function Create(t: Table, o: Obj, h: string): (r: Table)
    requires h !in t.bound
    ensures r.bound == t.bound[h := o]
    ensures HandlesOf(r, o) == HandlesOf(t, o) + [h]
    ensures forall p :: p != o ==> HandlesOf(r, p) == HandlesOf(t, p)
  {
    Table(t.bound[h := o], t.owned[o := HandlesOf(t, o) + [h]])
  }

  /** Creating a handle keeps the table consistent. */
  lemma CreateKeepsConsistent(t: Table, o: Obj, h: string)
    requires Consistent(t) && h !in t.bound
    ensures Consistent(Create(t, o, h))
  {
    var r := Create(t, o, h);
    forall p, g | p in r.owned && g in r.owned[p]
      ensures g in r.bound && r.bound[g] == p
    {
      assert g in HandlesOf(r, p);
      if p != o || g != h {
        assert g in HandlesOf(t, p);
        assert p in t.owned;
      }
    }
  }

  /** `s` without any occurrence of `x`. */
  function Remove(s: seq<string>, x: string): (r: seq<string>)
    ensures forall y :: y in r <==> y in s && y != x
  {
    if |s| == 0 then []
    else
      assert forall y :: y in s ==> y == s[0] || y in s[1..];
      (if s[0] == x then [] else [s[0]]) + Remove(s[1..], x)
  }

  /**
   * `modifyHandleDSpaceObject`: moves a bound handle from its owner to `o`,
   * where it becomes `o`'s first handle; an unbound handle is left alone.
   */
  function Repoint(t: Table, h: string, o: Obj): (r: Table)
    ensures h in t.bound ==> r.bound == t.bound[h := o]
    ensures h !in t.bound ==> r == t
  {
    if h !in t.bound then t
    else
      var p := t.bound[h];
      var detached := Table(t.bound, t.owned[p := Remove(HandlesOf(t, p), h)]);
      Table(t.bound[h := o], detached.owned[o := [h] + HandlesOf(detached, o)])
  }

  /** Repointing keeps the table consistent and makes the handle its new owner's first one. */
  lemma RepointKeepsConsistent(t: Table, h: string, o: Obj)
    requires Consistent(t)
    ensures Consistent(Repoint(t, h, o))
    ensures h in t.bound ==> FindHandle(Repoint(t, h, o), o) == Some(h)
  {
    if h in t.bound {
      var r := Repoint(t, h, o);
      var p := t.bound[h];
      var detached := Table(t.bound, t.owned[p := Remove(HandlesOf(t, p), h)]);
      forall g | g in r.bound
        ensures g in HandlesOf(r, r.bound[g])
      {
        if g != h {
          var q := t.bound[g];
          assert g in HandlesOf(t, q);
          assert g in HandlesOf(detached, q);
        }
      }
      forall q, g | q in r.owned && g in r.owned[q]
        ensures g in r.bound && r.bound[g] == q
      {
        if q == o && g == h {
        } else if q == o {
          assert g in HandlesOf(detached, o);
          assert g in HandlesOf(t, o) && g != h;
          assert o in t.owned;
        } else {
          assert g in HandlesOf(detached, q);
          assert g in HandlesOf(t, q) && g != h;
          assert q in t.owned;
        }
      }
    }
  }

  /**
   * `createHandle(dso, handle)`: nothing to do when the handle already names
   * `o`, refused when it names another object, otherwise created.
   */
  function CreateSupplied(t: Table, o: Obj, h: string): (r: Result<Table, HandleError>)
    ensures r.Err? <==> h in t.bound && t.bound[h] != o
    ensures r.Ok? ==> r.value.bound == t.bound[h := o]
    ensures r.Ok? && h in t.bound ==> r.value == t
    ensures r.Ok? && Consistent(t) ==> FindHandle(r.value, o).Some?
  {
    if h !in t.bound then Ok(Create(t, o, h))
    else if t.bound[h] == o then Ok(t)
    else Err(HandleInUse(h))
  }
}
