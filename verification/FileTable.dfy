/** The read-only web root and the table of open files, each with its own read position. */
module FileTable {
  import opened Bytes

  const MAX_FILES := 32

  datatype Slot = Free | Open(data: seq<Byte>, pos: nat)

  class Files {
    const root: map<seq<Byte>, seq<Byte>>
    const slots: array<Slot>

    constructor (root: map<seq<Byte>, seq<Byte>>)
      ensures this.root == root && fresh(slots) && Valid()
      ensures forall i | 0 <= i < MAX_FILES :: slots[i].Free?
    {
      this.root := root;
      slots := new Slot[MAX_FILES](_ => Free);
    }

    ghost predicate Valid() {
      slots.Length == MAX_FILES
    }

    /** A handle is the index of a slot nobody else holds, positioned at the start of the file. */
    method Fopen(path: seq<Byte>) returns (f: Option<nat>)
      requires Valid()
      modifies slots
      ensures f.None? <==> path !in root || forall i | 0 <= i < MAX_FILES :: old(slots[i]).Open?
      ensures f.None? ==> slots[..] == old(slots[..])
      ensures f.Some? ==>
                && f.value < MAX_FILES && old(slots[f.value]).Free?
                && slots[..] == old(slots[..])[f.value := Open(root[path], 0)]
    {
      if path in root {
        var i := 0;
        while i < MAX_FILES
          invariant i <= MAX_FILES
          invariant slots[..] == old(slots[..])
          invariant forall k | 0 <= k < i :: slots[k].Open?
        {
          if slots[i].Free? {
            slots[i] := Open(root[path], 0);
            return Some(i);
          }
          i := i + 1;
        }
      }
      return None;
    }

    method Fseek(f: nat, offset: nat)
      requires Valid() && f < MAX_FILES && slots[f].Open?
      modifies slots
      ensures slots[..] == old(slots[..])[f := Open(old(slots[f]).data, offset)]
    {
      slots[f] := slots[f].(pos := offset);
    }

    method Fclose(f: nat)
      requires Valid() && f < MAX_FILES
      modifies slots
      ensures slots[..] == old(slots[..])[f := Free]
    {
      slots[f] := Free;
    }

    /**
      Reads at most `count` bytes into `buf` at `at`.  A closed handle is the only error; a short
      read happens only at the end of the file.
    */
    method Fread(f: nat, buf: array<Byte>, at: nat, count: nat) returns (err: int, bytes: nat)
      requires Valid() && f < MAX_FILES
      requires slots[f].Open? ==> slots[f].pos <= |slots[f].data|
      requires at + count <= buf.Length && buf as object != slots
      modifies slots, buf
      ensures err == 0 || err == -1
      ensures err == -1 <==> old(slots[f]).Free?
      ensures err == -1 ==> bytes == 0 && slots[..] == old(slots[..]) && buf[..] == old(buf[..])
      ensures err == 0 ==>
                var Open(data, pos) := old(slots[f]);
                && bytes == (if count < |data| - pos then count else |data| - pos)
                && buf[..] == Splice(old(buf[..]), at, data[pos..pos + bytes])
                && slots[..] == old(slots[..])[f := Open(data, pos + bytes)]
    {
      if slots[f].Free? {
        return -1, 0;
      }
      var data, pos := slots[f].data, slots[f].pos;
      bytes := |data| - pos;
      if bytes > count {
        bytes := count;
      }
      Store(buf, at, data[pos..pos + bytes]);
      slots[f] := Open(data, pos + bytes);
      err := 0;
    }
  }
}
