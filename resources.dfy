/**
 * Bitmap resource injection (`update_pe_with_bitmaps`, `MAKEINTRESOURCE`).
 *
 * The Win32 update transaction (BeginUpdateResourceW, UpdateResourceW, EndUpdateResourceW) is
 * modelled by the class `ResourceFile`: the container's committed resource table, the table of
 * the open update, and the outcomes the platform gives, fixed when the object is made.
 */
module Resources {
  import opened Base

  /** Resource type RT_BITMAP. */
  const RtBitmap: int := 2
  /** Language id U.S. English. */
  const LangEnUs: int := 0x0409
  /** Number of distinct integer resource names: MAKEINTRESOURCE keeps 16 bits. */
  const NameSpace: int := 0x1_0000

  /** MAKEINTRESOURCE: the low 16 bits of `i`, taken in two's complement for a negative `i`. */
  function MakeIntResource(i: int): (name: int)
    ensures 0 <= name < NameSpace
    ensures (i - name) % NameSpace == 0
  {
    i % NameSpace
  }

  /** An id that already fits in 16 bits is its own resource name. */
  lemma MakeIntResourceSmall(i: int)
    requires 0 <= i < NameSpace
    ensures MakeIntResource(i) == i
  {
  }

  /** Ids 65536 apart get the same resource name. */
  lemma MakeIntResourceWraps(i: int)
    ensures MakeIntResource(i + NameSpace) == MakeIntResource(i)
  {
  }

  /** Within any run of at most 65536 consecutive ids, the resource names are pairwise distinct. */
  lemma NamesDistinct(startId: int, n: nat, i: nat, j: nat)
    requires n <= NameSpace && i < j < n
    ensures MakeIntResource(startId + i) != MakeIntResource(startId + j)
  {
  }

  /** Key of one entry of a resource table: type, integer name, language. */
  datatype ResKey = ResKey(kind: int, name: int, lang: int)

  /** A resource table: key to payload. */
  type Table = map<ResKey, seq<Byte>>

  /** The key under which the injector registers the bitmap with id `id`. */
  function BitmapKey(id: int): (k: ResKey)
    ensures k.kind == RtBitmap && k.lang == LangEnUs && 0 <= k.name < NameSpace
  {
    ResKey(RtBitmap, MakeIntResource(id), LangEnUs)
  }

  /** The registrations of `dibs` under ids `startId`, `startId + 1`, ..., applied in order. */
  function Registrations(startId: int, dibs: seq<seq<Byte>>): Table
    decreases |dibs|
  {
    if dibs == [] then map[]
    else Registrations(startId, dibs[..|dibs| - 1])[BitmapKey(startId + |dibs| - 1) := dibs[|dibs| - 1]]
  }

  /** Registering `dibs` from `startId` touches exactly the bitmap keys of ids startId .. startId + |dibs| - 1,
      all of type RT_BITMAP and language 0x0409. */
  lemma {:induction false} RegistrationsKeys(startId: int, dibs: seq<seq<Byte>>)
    ensures forall k :: k in Registrations(startId, dibs) <==>
              exists id :: startId <= id < startId + |dibs| && k == BitmapKey(id)
    ensures forall k :: k in Registrations(startId, dibs) ==> k.kind == RtBitmap && k.lang == LangEnUs
    decreases |dibs|
  {
    if dibs != [] {
      var n := |dibs| - 1;
      RegistrationsKeys(startId, dibs[..n]);
      forall k | exists id :: startId <= id < startId + |dibs| && k == BitmapKey(id)
        ensures k in Registrations(startId, dibs)
      {
        var id :| startId <= id < startId + |dibs| && k == BitmapKey(id);
        if id < startId + n {
          assert k in Registrations(startId, dibs[..n]);
        }
      }
    }
  }

  /** While the run has at most 65536 ids, payload `i` is what ends up under id `startId + i`. */
  lemma {:induction false} RegistrationsPayloads(startId: int, dibs: seq<seq<Byte>>, i: nat)
    requires |dibs| <= NameSpace && i < |dibs|
    ensures BitmapKey(startId + i) in Registrations(startId, dibs)
    ensures Registrations(startId, dibs)[BitmapKey(startId + i)] == dibs[i]
    decreases |dibs|
  {
    var n := |dibs| - 1;
    if i < n {
      RegistrationsPayloads(startId, dibs[..n], i);
      NamesDistinct(startId, |dibs|, i, n);
    }
  }

  /** What a successful injection leaves in the container: every earlier entry that is not one of the
      new bitmap ids unchanged, plus the new keys; nothing else. */
  lemma CommittedTable(before: Table, startId: int, dibs: seq<seq<Byte>>)
    ensures forall k :: k in before + Registrations(startId, dibs) <==>
              k in before || exists id :: startId <= id < startId + |dibs| && k == BitmapKey(id)
    ensures forall k :: k in before && (forall id :: startId <= id < startId + |dibs| ==> k != BitmapKey(id)) ==>
              (before + Registrations(startId, dibs))[k] == before[k]
  {
    RegistrationsKeys(startId, dibs);
  }

  /** Index of the first payload, from `from` on, whose registration the platform refuses; |dibs| if none. */
  function FirstRejected(accepts: (ResKey, seq<Byte>) -> bool, startId: int, dibs: seq<seq<Byte>>, from: nat): (k: nat)
    requires from <= |dibs|
    ensures from <= k <= |dibs|
    ensures forall i :: from <= i < k ==> accepts(BitmapKey(startId + i), dibs[i])
    ensures k < |dibs| ==> !accepts(BitmapKey(startId + k), dibs[k])
    decreases |dibs| - from
  {
    if from == |dibs| then from
    else if !accepts(BitmapKey(startId + from), dibs[from]) then from
    else FirstRejected(accepts, startId, dibs, from + 1)
  }

  /** The errors `update_pe_with_bitmaps` raises (each a WinError in the source). */
  datatype InjectError =
    | OpenFailed            // BeginUpdateResourceW returned no handle
    | WriteFailed           // UpdateResourceW refused a registration
    | CommitFailed          // EndUpdateResourceW failed

  /** The builder loop of `update_pe_with_bitmaps`: ids `startId + i` for each payload. */
  method AllocateIds(startId: int, count: nat) returns (ids: seq<int>)
    ensures |ids| == count
    ensures forall i :: 0 <= i < count ==> ids[i] == startId + i
    ensures StrictlyAscending(ids)
  {
    ids := [];
    var i := 0;
    while i < count
      invariant 0 <= i <= count
      invariant |ids| == i
      invariant forall j :: 0 <= j < i ==> ids[j] == startId + j
    {
      ids := ids + [startId + i];
      i := i + 1;
    }
  }

  /** A container file with its resource table and the platform's resource-update transaction. */
  class ResourceFile {
    /** The resource table as committed to the file. */
    var resources: Table
    /** The table as the open update transaction will write it. */
    var pending: Table
    /** Whether an update transaction is open. */
    var updating: bool

    /** Whether BeginUpdateResourceW gives a handle. */
    const canBegin: bool
    /** Which registrations UpdateResourceW accepts. */
    const accepts: (ResKey, seq<Byte>) -> bool
    /** Whether EndUpdateResourceW succeeds. */
    const canCommit: bool

    constructor (table: Table, canBegin: bool, accepts: (ResKey, seq<Byte>) -> bool, canCommit: bool)
      ensures resources == table && !updating
      ensures this.canBegin == canBegin && this.accepts == accepts && this.canCommit == canCommit
    {
      resources := table;
      pending := map[];
      updating := false;
      this.canBegin := canBegin;
      this.accepts := accepts;
      this.canCommit := canCommit;
    }

    /** BeginUpdateResourceW(path, bDeleteExistingResources = FALSE): the update starts from the current table. */
    method BeginUpdate() returns (ok: bool)
      requires !updating
      modifies this
      ensures ok == canBegin && updating == ok
      ensures resources == old(resources)
      ensures pending == if ok then resources else old(pending)
    {
      ok := canBegin;
      if ok {
        pending := resources;
        updating := true;
      }
    }

    /** UpdateResourceW: add or replace one entry of the pending table. */
    method UpdateResource(key: ResKey, data: seq<Byte>) returns (ok: bool)
      requires updating
      modifies this`pending
      ensures ok == accepts(key, data)
      ensures pending == if ok then old(pending)[key := data] else old(pending)
    {
      ok := accepts(key, data);
      if ok {
        pending := pending[key := data];
      }
    }

    /** EndUpdateResourceW(handle, fDiscard): write the pending table unless told to discard; close the handle. */
    method EndUpdate(discard: bool) returns (ok: bool)
      requires updating
      modifies this`resources, this`updating
      ensures !updating
      ensures ok == canCommit
      ensures resources == if ok && !discard then pending else old(resources)
    {
      ok := canCommit;
      if ok && !discard {
        resources := pending;
      }
      updating := false;
    }
  }

  /** Registering one more payload updates the table at that payload's key. */
  lemma RegistrationsStep(before: Table, startId: int, dibs: seq<seq<Byte>>, i: nat)
    requires i < |dibs|
    ensures before + Registrations(startId, dibs[..i + 1]) ==
            (before + Registrations(startId, dibs[..i]))[BitmapKey(startId + i) := dibs[i]]
  {
    assert dibs[..i + 1][..i] == dibs[..i];
  }

  /** `FirstRejected` is the index the registration loop stops at. */
  lemma FirstRejectedAt(accepts: (ResKey, seq<Byte>) -> bool, startId: int, dibs: seq<seq<Byte>>, i: nat)
    requires i <= |dibs|
    requires forall j :: 0 <= j < i ==> accepts(BitmapKey(startId + j), dibs[j])
    requires i < |dibs| ==> !accepts(BitmapKey(startId + i), dibs[i])
    ensures FirstRejected(accepts, startId, dibs, 0) == i
  {
  }

  /** The resource table a container holds after `update_pe_with_bitmaps(dibs, startId)`, from `before`:
      the accepted prefix of the registrations if the update could be opened and ended, else `before`. */
  function InjectedTable(f: ResourceFile, before: Table, startId: int, dibs: seq<seq<Byte>>): Table
  {
    if f.canBegin && f.canCommit then before + Registrations(startId, dibs[..FirstRejected(f.accepts, startId, dibs, 0)])
    else before
  }

  /** What `update_pe_with_bitmaps(dibs, startId)` on `f` raises, or the ids it used. */
  function InjectOutcome(f: ResourceFile, startId: int, dibs: seq<seq<Byte>>): Result<seq<int>, InjectError>
  {
    var k := FirstRejected(f.accepts, startId, dibs, 0);
    if !f.canBegin then Failure(OpenFailed)
    else if !f.canCommit then Failure(CommitFailed)
    else if k < |dibs| then Failure(WriteFailed)
    else Success(seq(|dibs|, i => startId + i))
  }

  /** An injection succeeds exactly when the update opens, every registration is accepted and the update
      ends; it then returns the contiguous run startId .. startId + |dibs| - 1 and commits all of `dibs`. */
  lemma InjectSucceeds(f: ResourceFile, before: Table, startId: int, dibs: seq<seq<Byte>>)
    ensures InjectOutcome(f, startId, dibs).Success? <==>
              f.canBegin && f.canCommit && forall i :: 0 <= i < |dibs| ==> f.accepts(BitmapKey(startId + i), dibs[i])
    ensures InjectOutcome(f, startId, dibs).Success? ==>
              var ids := InjectOutcome(f, startId, dibs).value;
              |ids| == |dibs| && StrictlyAscending(ids) &&
              (forall i :: 0 <= i < |ids| ==> ids[i] == startId + i) &&
              InjectedTable(f, before, startId, dibs) == before + Registrations(startId, dibs)
  {
    var k := FirstRejected(f.accepts, startId, dibs, 0);
    if k == |dibs| {
      assert dibs[..k] == dibs;
    }
  }

  /** A refused registration is reported, yet the `finally` ends the update without discarding: when
      EndUpdateResourceW succeeds, each payload before the refused one stays committed under its id. */
  lemma RefusedWriteKeepsPrefix(f: ResourceFile, before: Table, startId: int, dibs: seq<seq<Byte>>, i: nat)
    requires f.canBegin && f.canCommit && |dibs| <= NameSpace
    requires i < FirstRejected(f.accepts, startId, dibs, 0) < |dibs|
    ensures InjectOutcome(f, startId, dibs) == Failure(WriteFailed)
    ensures BitmapKey(startId + i) in InjectedTable(f, before, startId, dibs)
    ensures InjectedTable(f, before, startId, dibs)[BitmapKey(startId + i)] == dibs[i]
  {
    PrefixEntry(before, startId, dibs, FirstRejected(f.accepts, startId, dibs, 0), i);
  }

  lemma PrefixEntry(before: Table, startId: int, dibs: seq<seq<Byte>>, k: nat, i: nat)
    requires i < k <= |dibs| <= NameSpace
    ensures BitmapKey(startId + i) in before + Registrations(startId, dibs[..k])
    ensures (before + Registrations(startId, dibs[..k]))[BitmapKey(startId + i)] == dibs[i]
  {
    RegistrationsPayloads(startId, dibs[..k], i);
  }

  /** `update_pe_with_bitmaps`: register payload i under id `startId + i` as RT_BITMAP, language 0x0409.
      As in the source, a refused registration raises inside the `try`, and the `finally` still ends the
      update WITHOUT discarding, so the registrations made before it are committed; an error of
      EndUpdateResourceW replaces the one in flight. On success the ids it prints are returned. */
  method UpdatePeWithBitmaps(f: ResourceFile, dibs: seq<seq<Byte>>, startId: int) returns (r: Result<seq<int>, InjectError>)
    requires !f.updating
    modifies f
    ensures !f.updating
    ensures f.resources == InjectedTable(f, old(f.resources), startId, dibs)
    ensures r == InjectOutcome(f, startId, dibs)
  {
    var begun := f.BeginUpdate();
    if !begun {
      return Failure(OpenFailed);
    }
    var resourceIds := AllocateIds(startId, |dibs|);
    var i := 0;
    while i < |dibs|
      invariant 0 <= i <= |dibs|
      invariant f.updating && f.resources == old(f.resources)
      invariant forall j :: 0 <= j < i ==> f.accepts(BitmapKey(startId + j), dibs[j])
      invariant f.pending == old(f.resources) + Registrations(startId, dibs[..i])
    {
      var nameId := MakeIntResource(resourceIds[i]);
      var ok := f.UpdateResource(ResKey(RtBitmap, nameId, LangEnUs), dibs[i]);
      if !ok {
        break;
      }
      RegistrationsStep(old(f.resources), startId, dibs, i);
      i := i + 1;
    }
    FirstRejectedAt(f.accepts, startId, dibs, i);
    var committed := f.EndUpdate(false);
    if !committed {
      return Failure(CommitFailed);
    }
    if i < |dibs| {
      return Failure(WriteFailed);
    }
    assert resourceIds == seq(|dibs|, j => startId + j);
    return Success(resourceIds);
  }
}
