/**
 * Discovery of the bitmap ids already in a container (`get_bitmap_ids`) and the next free id
 * the driver derives from them.  The PE parser is abstracted: the resource directory is given
 * as its list of type entries.
 */
module BitmapIds {
  import opened Base
  import Resources

  /** One type-level entry of a resource directory: its numeric type id (None when the type is named
      by a string) and the ids of the entries under it (None for an entry named by a string). */
  datatype TypeEntry = TypeEntry(id: Option<int>, nameIds: seq<Option<int>>)

  /** The resource directory's type entries; None when the file has no resource directory. */
  type ResourceDirectory = Option<seq<TypeEntry>>

  /** `x` is the numeric id of an entry under an RT_BITMAP type entry of `dir`. */
  ghost predicate IsBitmapId(dir: ResourceDirectory, x: int)
  {
    dir.Some? && exists e :: e in dir.value && e.id == Some(Resources.RtBitmap) && Some(x) in e.nameIds
  }

  /** Insert `x` into a strictly ascending sequence, dropping it if present. */
  function Insert(x: int, s: seq<int>): (r: seq<int>)
    requires StrictlyAscending(s)
    ensures StrictlyAscending(r)
    ensures forall y :: y in r <==> y == x || y in s
  {
    if s == [] then [x]
    else if x < s[0] then [x] + s
    else if x == s[0] then s
    else
      var rest := Insert(x, s[1..]);
      assert forall j :: 0 <= j < |rest| ==> rest[j] in rest && s[0] < rest[j];
      [s[0]] + rest
  }

  /** The distinct elements of `s` in ascending order, as sorting the set of `s` gives them. */
  function SortedSet(s: seq<int>): (r: seq<int>)
    ensures StrictlyAscending(r)
    ensures forall y :: y in r <==> y in s
  {
    if s == [] then [] else Insert(s[|s| - 1], SortedSet(s[..|s| - 1]))
  }

  /** The numeric ids among `children`, in order (entries named by a string are skipped). */
  function NumericIds(children: seq<Option<int>>): seq<int>
  {
    if children == [] then []
    else NumericIds(children[..|children| - 1]) +
         (if children[|children| - 1].Some? then [children[|children| - 1].value] else [])
  }

  /** The ids under the RT_BITMAP type entries of `entries`, in directory order, repeats kept. */
  function RawBitmapIds(entries: seq<TypeEntry>): seq<int>
  {
    if entries == [] then []
    else RawBitmapIds(entries[..|entries| - 1]) +
         (if entries[|entries| - 1].id == Some(Resources.RtBitmap) then NumericIds(entries[|entries| - 1].nameIds) else [])
  }

  /** What `get_bitmap_ids` returns for `dir`. */
  function BitmapIdsOf(dir: ResourceDirectory): seq<int>
  {
    if dir.None? then [] else SortedSet(RawBitmapIds(dir.value))
  }

  lemma {:induction false} NumericIdsMembers(children: seq<Option<int>>, x: int)
    ensures x in NumericIds(children) <==> Some(x) in children
  {
    if children != [] {
      NumericIdsMembers(children[..|children| - 1], x);
      assert children == children[..|children| - 1] + [children[|children| - 1]];
    }
  }

  lemma {:induction false} RawBitmapIdsMembers(entries: seq<TypeEntry>, x: int)
    ensures x in RawBitmapIds(entries) <==>
              exists e :: e in entries && e.id == Some(Resources.RtBitmap) && Some(x) in e.nameIds
  {
    if entries != [] {
      var n := |entries| - 1;
      RawBitmapIdsMembers(entries[..n], x);
      NumericIdsMembers(entries[n].nameIds, x);
      assert entries == entries[..n] + [entries[n]];
    }
  }

  /** The list `get_bitmap_ids` returns is strictly ascending, and holds exactly the numeric ids of
      the entries under RT_BITMAP. */
  lemma BitmapIdsExactly(dir: ResourceDirectory)
    ensures StrictlyAscending(BitmapIdsOf(dir))
    ensures forall x :: x in BitmapIdsOf(dir) <==> IsBitmapId(dir, x)
  {
    if dir.Some? {
      forall x ensures x in BitmapIdsOf(dir) <==> IsBitmapId(dir, x) {
        RawBitmapIdsMembers(dir.value, x);
      }
    }
  }

  /** `get_bitmap_ids`: collect the numeric ids under RT_BITMAP, then sort and deduplicate. */
  method GetBitmapIds(dir: ResourceDirectory) returns (ids: seq<int>)
    ensures ids == BitmapIdsOf(dir)
    ensures StrictlyAscending(ids)
    ensures forall x :: x in ids <==> IsBitmapId(dir, x)
  {
    var raw: seq<int> := [];
    if dir.Some? {
      var entries := dir.value;
      var e := 0;
      while e < |entries|
        invariant 0 <= e <= |entries|
        invariant raw == RawBitmapIds(entries[..e])
      {
        assert entries[..e + 1][..e] == entries[..e];
        if entries[e].id == Some(Resources.RtBitmap) {
          var children := entries[e].nameIds;
          var c := 0;
          while c < |children|
            invariant 0 <= c <= |children|
            invariant raw == RawBitmapIds(entries[..e]) + NumericIds(children[..c])
          {
            assert children[..c + 1][..c] == children[..c];
            if children[c].Some? {
              raw := raw + [children[c].value];
            }
            c := c + 1;
          }
          assert children[..c] == children;
        }
        e := e + 1;
      }
      assert entries[..e] == entries;
    }
    ids := SortedSet(raw);
    BitmapIdsExactly(dir);
  }

  /** The last element of the id list, or 0 when the list is empty. */
  function LastId(ids: seq<int>): int
  {
    if ids == [] then 0 else ids[|ids| - 1]
  }

  /** The first id of a new run: the last existing id plus the configured gap. */
  function NextId(ids: seq<int>, gap: int): int
  {
    LastId(ids) + gap
  }

  /** For a list as `get_bitmap_ids` returns it, the next id is the largest existing id plus the gap
      (the gap alone for an empty list); with a gap of at least 1 it lies above every existing id. */
  lemma NextIdAboveExisting(ids: seq<int>, gap: int)
    requires StrictlyAscending(ids)
    ensures ids == [] ==> NextId(ids, gap) == gap
    ensures ids != [] ==> NextId(ids, gap) - gap in ids
    ensures forall x :: x in ids ==> x + gap <= NextId(ids, gap)
    ensures gap >= 1 ==> forall x :: x in ids ==> x < NextId(ids, gap)
  {
  }
}
