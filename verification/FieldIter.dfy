/** The field iterator of pb_common.c: a cursor that walks a descriptor in a cycle and
    keeps the data pointers and the required-field index in step. */
module FieldIter {
  import opened Schema

  /** Bytes a static field takes in the message struct. */
  function StorageSize(f: Field): (n: nat)
  {
    if f.htype.HRepeated? then f.dataSize * f.arraySize else f.dataSize
  }

  /** Offset of field i's data from the start of the struct, summed from the left; members
      of a union do not advance it. */
  function DataAt(fields: seq<Field>, i: nat): (p: nat)
    requires i < |fields|
  {
    if i == 0 then fields[0].dataOffset
    else if JoinsPrevious(fields, i) then DataAt(fields, i - 1)
    else DataAt(fields, i - 1) + StorageSize(fields[i - 1]) + fields[i].dataOffset
  }

  /** Offset of the has_, _count or which_ member of field i. */
  function SizeAt(fields: seq<Field>, i: nat): (p: int)
    requires i < |fields|
  {
    if JoinsPrevious(fields, i) then SizeAt(fields, i - 1) else DataAt(fields, i) + fields[i].sizeOffset
  }

  /** All members of a union have the data and which_ pointers of its first member. */
  lemma {:induction false} UnionShares(fields: seq<Field>, i: nat)
    requires i < |fields|
    ensures DataAt(fields, i) == DataAt(fields, Slot(fields, i))
    ensures SizeAt(fields, i) == SizeAt(fields, Slot(fields, i))
    decreases i
  {
    if JoinsPrevious(fields, i) {
      UnionShares(fields, i - 1);
    }
  }

  /** Outside unions data pointers move forward by at least the storage passed over. */
  lemma {:induction false} DataOrdered(fields: seq<Field>, i: nat, j: nat)
    requires i < j < |fields|
    requires forall k :: i < k <= j ==> !JoinsPrevious(fields, k)
    ensures DataAt(fields, i) + StorageSize(fields[i]) <= DataAt(fields, j)
    decreases j
  {
    if i < j - 1 {
      DataOrdered(fields, i, j - 1);
    }
  }

  /** A member of the C struct: where its data lies, how many bytes it takes, and where its
      has_, _count or which_ member lies (at the data itself where there is none). */
  datatype Member = Member(offset: nat, bytes: nat, flag: nat)

  /** Member i shares the union of member i - 1. */
  ghost predicate InUnion(fields: seq<Field>, ms: seq<Member>, i: nat)
    requires i < |fields| == |ms|
  {
    && i > 0 && fields[i - 1].htype.HOneof? && fields[i].htype.HOneof?
    && ms[i].offset == ms[i - 1].offset && ms[i].flag == ms[i - 1].flag
  }

  /** The macros of pb.h fill in the descriptor from the struct: data_offset is the offset of
      the first member (PB_DATAOFFSET_FIRST), PB_SIZE_MAX for a further member of a union
      (PB_DATAOFFSET_UNION), otherwise the gap behind the member before
      (PB_DATAOFFSET_OTHER); size_offset is the distance to the flag (pb_delta). */
  ghost predicate Describes(fields: seq<Field>, ms: seq<Member>)
  {
    && |ms| == |fields|
    && (forall i :: 0 <= i < |fields| ==> fields[i].sizeOffset == ms[i].flag - ms[i].offset)
    && (forall i :: 0 <= i < |fields| ==>
          ms[i].bytes == if fields[i].htype.HRepeated? then fields[i].dataSize * fields[i].arraySize
                         else fields[i].dataSize)
    && (fields != [] ==> fields[0].dataOffset == ms[0].offset)
    && (forall i :: 0 < i < |fields| ==>
          if InUnion(fields, ms, i) then fields[i].dataOffset == PB_SIZE_MAX
          else
            && fields[i].dataOffset < PB_SIZE_MAX
            && fields[i].dataOffset == ms[i].offset - ms[i - 1].offset - ms[i - 1].bytes)
  }

  /** For a descriptor made from a struct the iterator points at the struct's own members. */
  lemma {:induction false} LayoutFound(fields: seq<Field>, ms: seq<Member>, i: nat)
    requires Describes(fields, ms) && i < |fields|
    ensures DataAt(fields, i) == ms[i].offset && SizeAt(fields, i) == ms[i].flag
    decreases i
  {
    if i > 0 {
      LayoutFound(fields, ms, i - 1);
      assert InUnion(fields, ms, i) ==> JoinsPrevious(fields, i);
    }
  }

  /** Position p is reached from s by d steps of the cycle. */
  ghost predicate Steps(n: nat, s: nat, d: nat, p: nat)
  {
    s < n && d <= n && p == if s + d < n then s + d else s + d - n
  }

  class Iter {
    const fields: seq<Field>
    var pos: nat
    var requiredIndex: nat
    var data: int
    var size: int

    /** The cursor's other members are functions of its position. In an empty descriptor
        it stands on the terminator. */
    ghost predicate Valid()
      reads this
    {
      if fields == [] then pos == 0 && requiredIndex == 0 && data == 0 && size == 0
      else
        && pos < |fields|
        && requiredIndex == ReqIndex(fields, pos)
        && data == DataAt(fields, pos) && size == SizeAt(fields, pos)
    }

    /** pData and pSize are the addresses of the member under the cursor. */
    lemma PointsAtMember(ms: seq<Member>)
      requires Valid() && fields != [] && Describes(fields, ms)
      ensures pos < |ms| && data == ms[pos].offset && size == ms[pos].flag
    {
      LayoutFound(fields, ms, pos);
    }

    /** pb_field_iter_begin. */
    constructor (fields: seq<Field>)
      ensures Valid() && this.fields == fields && pos == 0
    {
      this.fields := fields;
      pos := 0;
      requiredIndex := 0;
      data := if fields == [] then 0 else fields[0].dataOffset;
      size := if fields == [] then 0 else fields[0].dataOffset + fields[0].sizeOffset;
    }

    method Begin() returns (some: bool)
      modifies this
      ensures Valid() && pos == 0 && some == (fields != [])
    {
      pos := 0;
      requiredIndex := 0;
      data := if fields == [] then 0 else fields[0].dataOffset;
      size := if fields == [] then 0 else fields[0].dataOffset + fields[0].sizeOffset;
      return fields != [];
    }

    /** pb_field_iter_next: one step of the cycle, false when it wraps to the start. */
    method Next() returns (more: bool)
      requires Valid()
      modifies this
      ensures Valid()
      ensures more == (old(pos) + 1 < |fields|)
      ensures pos == if more then old(pos) + 1 else 0
    {
      if fields == [] {
        return false;
      }
      var prev := fields[pos];
      pos := pos + 1;
      if pos == |fields| {
        var _ := Begin();
        return false;
      }
      var f := fields[pos];
      if prev.htype.HOneof? && f.htype.HOneof? && f.dataOffset == PB_SIZE_MAX {
        return true;
      }
      var prevSize := prev.dataSize;
      if prev.htype.HRepeated? {
        prevSize := prevSize * prev.arraySize;
      }
      if prev.htype.HRequired? {
        requiredIndex := requiredIndex + 1;
      }
      data := data + prevSize + f.dataOffset;
      size := data + f.sizeOffset;
      return true;
    }

    /** The tag under the cursor; the terminator's is 0. */
    function Tag(): (t: nat)
      requires Valid()
      reads this
    {
      if fields == [] then 0 else fields[pos].tag
    }

    /** pb_field_iter_find: search the cycle from the current position. The first match in
        cyclic order wins; without one the cursor is back where it was. */
    method Find(tag: nat) returns (found: bool)
      requires Valid()
      modifies this
      ensures Valid()
      ensures found ==> Tag() == tag
      ensures !found ==> pos == old(pos) && (fields == [] ==> tag != 0)
      ensures found <==> (exists i :: 0 <= i < |fields| && fields[i].tag == tag) || (fields == [] && tag == 0)
      ensures found && fields != [] && UniqueTags(fields) ==> Schema.Find(fields, tag) == Some(pos)
    {
      var start := pos;
      if Tag() == tag {
        found := true;
      } else if fields == [] {
        var _ := Next();
        found := false;
      } else {
        found := SearchOn(tag, start);
      }
      if found && fields != [] && UniqueTags(fields) {
        FindUnique(fields, pos);
      }
    }

    /** The turns of the search after the first. */
    method SearchOn(tag: nat, start: nat) returns (found: bool)
      requires Valid() && fields != [] && start == pos && fields[start].tag != tag
      modifies this
      ensures Valid()
      ensures found ==> fields[pos].tag == tag
      ensures !found ==> pos == start && forall i :: 0 <= i < |fields| ==> fields[i].tag != tag
    {
      var _ := Next();
      ghost var d := 1;
      while pos != start
        invariant Valid() && 1 <= d && Steps(|fields|, start, d, pos)
        invariant forall k: nat, q: nat :: k < d && Steps(|fields|, start, k, q) ==> fields[q].tag != tag
        decreases |fields| - d
      {
        if fields[pos].tag == tag {
          return true;
        }
        var _ := Next();
        d := d + 1;
      }
      forall i | 0 <= i < |fields| ensures fields[i].tag != tag {
        assert Steps(|fields|, start, if i >= start then i - start else i + |fields| - start, i);
      }
      return false;
    }

    /** The seek to the end of the descriptor that counts its required fields, from
        wherever the decoding loop left the cursor. */
    method CountRequired() returns (count: nat)
      requires Valid()
      modifies this
      ensures Valid()
      ensures count == ReqIndex(fields, |fields|)
    {
      if fields == [] {
        var _ := Next();
        return 0;
      }
      count := requiredIndex;
      var last := fields[pos];
      ghost var at := pos;
      var more := Next();
      while more
        invariant Valid() && at < |fields| && last == fields[at] && count == ReqIndex(fields, at)
        invariant more ==> pos == at + 1
        invariant !more ==> at + 1 == |fields|
        decreases |fields| - at, more
      {
        count := requiredIndex;
        last := fields[pos];
        at := pos;
        more := Next();
      }
      if last.htype.HRequired? {
        count := count + 1;
      }
    }
  }
}
