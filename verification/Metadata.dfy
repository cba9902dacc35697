/** The per-page trap bits, kept in one byte for each of the 2^20 linear pages and cleared lazily. */
module Metadata {

  const TRAP_USER: bv8 := 1
  const TRAP_WRITE: bv8 := 2
  const TRAP_ACCESS: bv8 := 4

  // The requirements of an access, as the bits that must be clear.
  function MetadataTest(isWrite: bool, isUser: bool): bv8 {
    TRAP_ACCESS | (if isWrite then TRAP_WRITE else 0) | (if isUser then TRAP_USER else 0)
  }

  predicate ShouldTrap(bits: bv8, test: bv8) {
    bits & test != 0
  }

  function MetadataBits(trapUser: bool, trapWrite: bool): bv8 {
    (if trapUser then TRAP_USER else 0) | (if trapWrite then TRAP_WRITE else 0)
  }

  // An access is let through exactly when none of the bits it requires is set.
  lemma TrapsWhenRequired(bits: bv8, isWrite: bool, isUser: bool)
    ensures ShouldTrap(bits, MetadataTest(isWrite, isUser)) <==>
              bits & TRAP_ACCESS != 0 || (isWrite && bits & TRAP_WRITE != 0) || (isUser && bits & TRAP_USER != 0)
  {
  }

  const MAP_SIZE: nat := 0x10_0000
  const NUM_CHUNKS: nat := 128
  const CHUNK_SIZE: nat := 0x2000

  class MetadataMap {
    const entries: array<bv8>
    // One flag per chunk of entries: whether any of them may differ from 0xff.
    const modified: array<bool>

    ghost predicate Valid()
      reads this, entries, modified
    {
      && entries.Length == MAP_SIZE && modified.Length == NUM_CHUNKS
      && forall n :: 0 <= n < MAP_SIZE && !modified[n / CHUNK_SIZE] ==> entries[n] == 0xff
    }

    // The fresh region holds arbitrary bytes until it is initialized.
    constructor ()
      ensures Valid() && fresh(entries) && fresh(modified)
      ensures forall n :: 0 <= n < MAP_SIZE ==> entries[n] == 0xff
    {
      entries := new bv8[MAP_SIZE];
      modified := new bool[NUM_CHUNKS];
      new;
      Initialize();
    }

    method Initialize()
      requires entries.Length == MAP_SIZE && modified.Length == NUM_CHUNKS
      modifies entries, modified
      ensures Valid() && forall i :: 0 <= i < NUM_CHUNKS ==> !modified[i]
      ensures forall n :: 0 <= n < MAP_SIZE ==> entries[n] == 0xff
    {
      forall i | 0 <= i < NUM_CHUNKS { modified[i] := false; }
      forall n | 0 <= n < MAP_SIZE { entries[n] := 0xff; }
    }

    function GetForAddress(addr: nat): bv8
      requires addr / 4096 < entries.Length
      reads entries
    {
      entries[addr / 4096]
    }

    method Set(addr: nat, val: bv8)
      requires Valid() && addr < 0x1_0000_0000
      modifies entries, modified
      ensures Valid() && modified[..] == old(modified[..])[addr / 4096 / CHUNK_SIZE := true]
      ensures entries[..] == old(entries[..])[addr / 4096 := val]
    {
      var offset := addr / 4096;
      modified[offset / CHUNK_SIZE] := true;
      entries[offset] := val;
    }

    // Enables all trapping. Only the modified chunks are rewritten.
    method Clear()
      requires Valid()
      modifies entries, modified
      ensures Valid() && forall i :: 0 <= i < NUM_CHUNKS ==> !modified[i]
      ensures forall n :: 0 <= n < MAP_SIZE ==> entries[n] == 0xff
    {
      for index := 0 to NUM_CHUNKS
        invariant forall i :: 0 <= i < NUM_CHUNKS ==> modified[i] == old(modified[i])
        invariant forall n :: 0 <= n < index * CHUNK_SIZE ==> entries[n] == 0xff
        invariant forall n :: index * CHUNK_SIZE <= n < MAP_SIZE ==> entries[n] == old(entries[n])
      {
        var offset := index * CHUNK_SIZE;
        if modified[index] {
          forall n | offset <= n < offset + CHUNK_SIZE { entries[n] := 0xff; }
        }
      }
      forall i | 0 <= i < NUM_CHUNKS { modified[i] := false; }
    }

    method EnableForAll(extra: bv8)
      requires Valid()
      modifies entries
      ensures Valid()
      ensures forall n :: 0 <= n < MAP_SIZE ==> entries[n] == old(entries[n]) | extra
    {
      for index := 0 to NUM_CHUNKS
        invariant forall n :: 0 <= n < index * CHUNK_SIZE ==> entries[n] == old(entries[n]) | extra
        invariant forall n :: index * CHUNK_SIZE <= n < MAP_SIZE ==> entries[n] == old(entries[n])
      {
        var offset := index * CHUNK_SIZE;
        if modified[index] {
          for n := offset to offset + CHUNK_SIZE
            invariant forall m :: 0 <= m < n ==> entries[m] == old(entries[m]) | extra
            invariant forall m :: n <= m < MAP_SIZE ==> entries[m] == old(entries[m])
          {
            entries[n] := entries[n] | extra;
          }
        }
      }
    }
  }
}
