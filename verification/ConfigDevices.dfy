/** Two storage drivers, lib-configstore/device/file and lib-configstore/device/i2c, as instances of the device that
    the flush machine assumes: every call of theirs is an `EraseCall` or a `WriteCall`, so that whatever holds of all
    runs holds with them. Neither needs an erased byte to be 0xFF before it is written. */
module ConfigDevices {
  import opened Integers
  import opened Wrappers
  import opened Memory
  import opened ConfigRuns

  const FLASH_SECTOR_SIZE := 4096
  const FLASH_SIZE := 512 * FLASH_SECTOR_SIZE
  const BLOCK_WRITE_LENGTH := 1024

  datatype Result = OK | ERROR

  // ---- the file ----

  /** Writing to a file at a position inside it or at its end: it overwrites, and appends what does not fit. */
  function Overlay(m: seq<byte>, at: nat, data: seq<byte>): (r: seq<byte>)
    requires at <= |m|
    ensures |r| == if at + |data| < |m| then |m| else at + |data|
    ensures forall a :: 0 <= a < |r| ==> r[a] == if at <= a < at + |data| then data[a - at] else m[a]
  {
    m[..at] + data + if at + |data| < |m| then m[at + |data|..] else []
  }

  function ErasedBytes(n: nat): (s: seq<byte>)
    ensures |s| == n && forall k :: 0 <= k < n ==> s[k] == 255
  {
    seq(n, _ => 255)
  }

  datatype FileState = Idle | Running | Failed

  /** A file of 512 sectors. One state and one index serve both operations: an erase that follows an interrupted write
      goes on at the file position which that write has reached. */
  class FileDevice {
    var file: seq<byte>
    var position: nat
    var state: FileState
    var index: nat

    ghost var blank: set<nat>
    ghost var activity: Activity
    ghost var base: nat
    ghost var length: nat

    /** The region and the length a running operation was called with are `base` and `length`. */
    ghost predicate Valid()
      reads this
    {
      && FLASH_SIZE <= |file| && position <= |file|
      && (state == Idle ==> activity == Resting)
      && (state == Running ==> activity != Resting && position == base + index && Behind(base, index, blank))
      && (state == Running && activity == Erasing ==> index == 0)
      && (state == Running && activity == Writing ==> index <= length)
    }

    ghost function Abs(): Device
      reads this
    {
      Device(file, blank, activity, if activity == Writing then FurtherBlocks(index, length) else 0)
    }

    /** Opens the file, or makes a new one that reads as erased. */
    constructor (existing: Option<seq<byte>>)
      requires existing.Some? ==> FLASH_SIZE <= |existing.value|
      ensures Valid() && state == Idle && Abs().activity == Resting
      ensures file == if existing.Some? then existing.value else ErasedBytes(FLASH_SIZE)
    {
      file, position, state, index := [], 0, Idle, 0;
      blank, activity, base, length := {}, Resting, 0, 0;
      new;
      if existing.Some? {
        file := existing.value;
      } else {
        PutOnes(FLASH_SIZE);
      }
    }

    /** fputc. */
    method PutByte(b: byte)
      requires position <= |file|
      modifies this`file, this`position
      ensures file == Overlay(old(file), old(position), [b]) && position == old(position) + 1
    {
      file := Overlay(file, position, [b]);
      position := position + 1;
    }

    method PutOnes(n: nat)
      requires position <= |file|
      modifies this`file, this`position
      ensures file == Overlay(old(file), old(position), ErasedBytes(n)) && position == old(position) + n
    {
      var i := 0;
      while i < n
        invariant i <= n && position == old(position) + i && position <= |file|
        invariant file == Overlay(old(file), old(position), ErasedBytes(i))
      {
        PutByte(255);
        assert file == Overlay(old(file), old(position), ErasedBytes(i + 1));
        i := i + 1;
      }
    }

    /** The first call looks for the place and the second one writes; after an interrupted write the first call already
        writes, from wherever that write had come to. */
    method Erase(offset: nat, n: nat) returns (done: bool, result: Result)
      requires Valid() && state != Failed && offset + n <= FLASH_SIZE && (state == Running ==> offset == base)
      modifies this
      ensures var aligned := offset % FLASH_SECTOR_SIZE == 0 && n % FLASH_SECTOR_SIZE == 0;
              if old(state) == Idle && !aligned then
                done && result == ERROR && state == Failed && file == old(file)
              else
                && Valid() && result == OK && EraseCall(old(Abs()), Abs(), offset, n, done)
                && (done <==> old(state) == Running) && state == (if done then Idle else Running)
                && (!done ==> base == offset && activity == Erasing)
                && file == if done then Overlay(old(file), old(position), ErasedBytes(n)) else old(file)
    {
      hide Overlay, ErasedBytes;
      if state == Idle {
        if offset % FLASH_SECTOR_SIZE != 0 || n % FLASH_SECTOR_SIZE != 0 {
          state := Failed;
          return true, ERROR;
        }
        position, index, state := offset, 0, Running;
        activity, base, blank := Erasing, offset, {};
        return false, OK;
      }
      ghost var m, p := file, position;
      PutOnes(n);
      OverlayKeeps(m, p, ErasedBytes(n));
      state := Idle;
      activity, blank := Resting, Range(offset, n);
      return true, OK;
    }

    /** The first call looks for the place, and every further one writes a block of up to 1024 bytes. The call that is
        done leaves the caller's result as it was. */
    method Write(offset: nat, data: seq<byte>) returns (done: bool, result: Option<Result>)
      requires Valid() && state != Failed && offset + |data| <= FLASH_SIZE
      requires state == Running ==> offset == base && (activity == Writing ==> |data| == length)
      modifies this
      ensures Valid() && WriteCall(old(Abs()), Abs(), offset, data, done)
      ensures state == (if done then Idle else Running) && result == if done then None else Some(OK)
      ensures !done ==> base == offset && length == |data| && activity == Writing
      ensures if old(state) == Idle then !done && file == old(file)
              else old(index) <= index <= |data| && file == Overlay(old(file), old(position), data[old(index)..index])
    {
      if state == Idle {
        ghost var d := Abs();
        position, index, state := offset, 0, Running;
        activity, base, length := Writing, offset, |data|;
        NothingWritten(d, Abs(), offset, data);
        return false, Some(OK);
      }
      done := WriteBlock(offset, data);
      result := if done then None else Some(OK);
    }

    method WriteBlock(offset: nat, data: seq<byte>) returns (done: bool)
      requires Valid() && state == Running && offset + |data| <= FLASH_SIZE && offset == base
      requires activity == Writing ==> |data| == length
      modifies this
      ensures Valid() && WriteCall(old(Abs()), Abs(), offset, data, done)
      ensures state == (if done then Idle else Running) && (!done ==> base == offset && length == |data| && activity == Writing)
      ensures old(index) <= index <= |data| && file == Overlay(old(file), old(position), data[old(index)..index])
    {
      hide FurtherBlocks, Overlay, Behind, WriteCall;
      ghost var d, i := Abs(), index;
      var n := |data| - index;
      if n > BLOCK_WRITE_LENGTH {
        n := BLOCK_WRITE_LENGTH;
      }
      OverlayKeeps(file, position, data[index..index + n]);
      file := Overlay(file, position, data[index..index + n]);
      position := position + n;
      index := index + n;
      done := index == |data|;
      if done {
        state := Idle;
      }
      activity, length, blank := if done then Resting else Writing, |data|, blank - Range(offset + i, n);
      BlockIsCall(d, Abs(), offset, data, i, n);
    }
  }

  lemma OverlayKeeps(m: seq<byte>, at: nat, data: seq<byte>)
    requires at <= |m|
    ensures var r := Overlay(m, at, data);
            |m| <= |r| && at + |data| <= |r| && forall a :: 0 <= a < |m| && a < at ==> r[a] == m[a]
  {
  }

  /** The part already written is not ready to be programmed again. */
  ghost predicate Behind(base: nat, index: nat, blank: set<nat>) {
    forall a :: base <= a < base + index ==> a !in blank
  }

  /** Calls that a write needs after the next one. */
  ghost function FurtherBlocks(index: nat, length: nat): nat {
    if index < length then (length - index - 1) / BLOCK_WRITE_LENGTH else 0
  }

  lemma OneBlockLess(index: nat, length: nat)
    requires index <= length
    ensures length - index <= BLOCK_WRITE_LENGTH ==> FurtherBlocks(index, length) == 0
    ensures length - index > BLOCK_WRITE_LENGTH ==>
              FurtherBlocks(index, length) == FurtherBlocks(index + BLOCK_WRITE_LENGTH, length) + 1
  {
  }

  /** Overwriting one block of the data is what a write may do, and the part behind the index grows by the block. */
  lemma BlockWritten(d: Device, d': Device, offset: nat, data: seq<byte>, i: nat, n: nat)
    requires i + n <= |data| && offset + |data| <= |d.content| && Behind(offset, i, d.blank)
    requires d'.content == Overlay(d.content, offset + i, data[i..i + n]) && d'.blank == d.blank - Range(offset + i, n)
    ensures SameElsewhere(d, d', offset, |data|)
    ensures forall a :: offset <= a < offset + |data| ==> Untouched(d, d', a) || Programmed(d, d', a, data[a - offset])
    ensures Behind(offset, i + n, d'.blank)
    ensures i + n == |data| ==> forall a :: offset <= a < offset + |data| ==> a !in d'.blank
  {
    forall a | offset <= a < offset + |data| ensures Untouched(d, d', a) || Programmed(d, d', a, data[a - offset]) {
      if offset + i <= a < offset + i + n {
        assert data[i..i + n][a - offset - i] == data[a - offset];
      }
    }
  }

  /** And it is a call of the assumed device. */
  lemma BlockIsCall(d: Device, d': Device, offset: nat, data: seq<byte>, i: nat, n: nat)
    requires i + n <= |data| && offset + |data| <= |d.content| && Behind(offset, i, d.blank)
    requires n == Min(|data| - i, BLOCK_WRITE_LENGTH)
    requires d'.content == Overlay(d.content, offset + i, data[i..i + n]) && d'.blank == d.blank - Range(offset + i, n)
    requires d.activity == Writing ==> d.left == FurtherBlocks(i, |data|)
    requires if i + n == |data| then d'.activity == Resting else d'.activity == Writing && d'.left == FurtherBlocks(i + n, |data|)
    ensures WriteCall(d, d', offset, data, i + n == |data|) && Behind(offset, i + n, d'.blank)
  {
    hide Overlay, Behind, FurtherBlocks, SameElsewhere, Untouched, Programmed;
    OneBlockLess(i, |data|);
    BlockWritten(d, d', offset, data, i, n);
  }

  lemma NothingWritten(d: Device, d': Device, offset: nat, data: seq<byte>)
    requires d'.content == d.content && d'.blank == d.blank && offset + |data| <= |d.content|
    ensures SameElsewhere(d, d', offset, |data|) && Behind(offset, 0, d'.blank)
    ensures forall a :: offset <= a < offset + |data| ==> Untouched(d, d', a) || Programmed(d, d', a, data[a - offset])
  {
  }

  // ---- the EEPROM ----

  /** An AT24C32 of one sector: erasing does nothing, and writing overwrites in one call. */
  class Eeprom {
    var rom: seq<byte>

    ghost var blank: set<nat>

    ghost predicate Valid()
      reads this
    {
      |rom| == FLASH_SECTOR_SIZE
    }

    ghost function Abs(): Device
      reads this
    {
      Device(rom, blank, Resting, 0)
    }

    method Erase(offset: nat, n: nat) returns (done: bool, result: Result)
      requires Valid()
      modifies this`blank
      ensures Valid() && done && result == OK && EraseCall(old(Abs()), Abs(), offset, n, done)
    {
      blank := Range(offset, n);
      return true, OK;
    }

    method Write(offset: nat, data: seq<byte>) returns (done: bool, result: Result)
      requires Valid() && offset + |data| <= FLASH_SECTOR_SIZE
      modifies this
      ensures Valid() && done && result == OK && rom == Overlay(old(rom), offset, data)
      ensures WriteCall(old(Abs()), Abs(), offset, data, done)
    {
      ghost var d := Abs();
      rom := Overlay(rom, offset, data);
      blank := blank - Range(offset, |data|);
      assert data[0..|data|] == data;
      BlockWritten(d, Abs(), offset, data, 0, |data|);
      return true, OK;
    }
  }
}
