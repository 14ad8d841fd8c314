/** The configuration store of lib-configstore: the RAM image, its operations, and the flush machine driven by
    polling `Flash`, over a device and a clock that the outside world decides. */
module ConfigStore {
  import opened Integers
  import opened Memory
  import opened ConfigImage
  import opened ConfigBoot
  import opened ConfigRuns
  import opened ConfigDevices
  import opened FlashDrivers

  /** The millisecond counter. Reads may repeat a time only finitely often, and no read comes so late that the
      wrapped counter would hide it. */
  class Hardware {
    ghost const MAX_GAP := WORD_LIMIT - DEBOUNCE

    var now: nat
    var stall: nat

    method Millis() returns (ms: nat)
      modifies this
      ensures ms == now % WORD_LIMIT
      ensures old(now) <= now <= old(now) + MAX_GAP
      ensures now == old(now) ==> stall < old(stall)
    {
      var gap: nat := *;
      if 0 < stall && gap == 0 {
        stall := stall - 1;
      } else {
        now := now + 1 + gap % (WORD_LIMIT - DEBOUNCE);
        stall := *;
      }
      ms := now % WORD_LIMIT;
    }
  }

  /** Any storage device at all, as far as the machine relies on it: erase and write take any number of calls and
      program bytes in any order. */
  class AnyDevice {
    var d: Device

    method Erase(offset: nat, length: nat) returns (done: bool)
      requires offset + length <= |d.content|
      modifies this
      ensures EraseCall(old(d), d, offset, length, done)
    {
      var left: nat, unknown: seq<byte>, behind: seq<byte> := *, *, *;
      if d.activity == Erasing {
        left := d.left;
      }
      done := left == 0;
      var was := d.content;
      var content := seq(|was|, a requires 0 <= a < |was| =>
        if offset <= a < |unknown| then unknown[a] else was[a]) + behind;
      d := if done then Device(content, Range(offset, length), Resting, 0) else Device(content, {}, Erasing, left - 1);
    }

    method Write(offset: nat, data: seq<byte>) returns (done: bool)
      requires offset + |data| <= |d.content|
      modifies this
      ensures WriteCall(old(d), d, offset, data, done)
    {
      var left: nat, unknown: seq<byte>, chosen: set<nat> := *, *, *;
      if d.activity == Writing {
        left := d.left;
      }
      done := left == 0;
      var was := d;
      var programmed := Range(offset, |data|) * if done then Range(offset, |data|) else chosen;
      var content := seq(|was.content|, a requires 0 <= a < |was.content| =>
        if a !in programmed then was.content[a]
        else if a in was.blank || was.content[a] == data[a - offset] || a >= |unknown| then data[a - offset]
        else unknown[a]);
      d := Device(content, d.blank - programmed, if done then Resting else Writing, if done then 0 else left - 1);
    }
  }

  /** The driver that is linked in. */
  datatype Driver = Any(any: AnyDevice) | File(file: FileDevice) | Rom(rom: FmcDevice) | I2c(eeprom: Eeprom)

  method CopyOut(content: seq<byte>, offset: nat, image: array<byte>)
    requires offset + image.Length <= |content|
    modifies image
    ensures image[..] == content[offset..offset + image.Length]
  {
    var k := 0;
    while k < image.Length
      invariant k <= image.Length
      invariant forall x :: 0 <= x < k ==> image[x] == content[offset + x]
    {
      image[k] := content[offset + k];
      k := k + 1;
    }
  }

  /** The device that the store is built on. It passes the store's calls on to its driver; `d` is the device that the
      driver implements. */
  class StoreDevice {
    const driver: Driver
    const detected: bool
    const size: nat
    const sectorSize: nat

    ghost var d: Device

    constructor (driver: Driver, detected: bool, size: nat, sectorSize: nat)
      requires 0 < sectorSize <= SIZE <= size
      requires match driver
               case Any(any) => size <= |any.d.content|
               case File(file) => file.Valid() && file.state == Idle && size == FLASH_SIZE && sectorSize == FLASH_SECTOR_SIZE
               case Rom(rom) => rom.Valid() && rom.activity == Resting && size == rom.chip.size && sectorSize == FLASH_SECTOR_SIZE
               case I2c(eeprom) => eeprom.Valid() && size == sectorSize == FLASH_SECTOR_SIZE
      ensures Valid() && this.driver == driver && this.detected == detected && this.size == size && this.sectorSize == sectorSize
    {
      this.driver, this.detected, this.size, this.sectorSize := driver, detected, size, sectorSize;
      d := match driver case Any(any) => any.d case File(file) => file.Abs() case Rom(rom) => rom.Abs() case I2c(eeprom) => eeprom.Abs();
    }

    ghost function Parts(): set<object> {
      match driver
      case Any(any) => {any}
      case File(file) => {file}
      case Rom(rom) => {rom, rom.chip}
      case I2c(eeprom) => {eeprom}
    }

    /** Start of the region that the store uses. */
    ghost function Start(): nat
      requires SIZE <= size
    {
      size - SIZE
    }

    ghost predicate Valid()
      reads this, Parts()
    {
      && 0 < sectorSize <= SIZE <= size <= |d.content|
      && match driver
         case Any(any) => any.d == d
         case File(file) =>
           && file.Valid() && file.state != Failed && file.Abs() == d && size == FLASH_SIZE && sectorSize == FLASH_SECTOR_SIZE
           && (file.state == Running ==> file.base == Start() && (file.activity == Writing ==> file.length == USED))
         case Rom(rom) =>
           && rom.Valid() && rom.Abs() == d && size == rom.chip.size && sectorSize == FLASH_SECTOR_SIZE
           && (rom.activity != Resting ==> rom.base == Start())
           && (rom.activity == Erasing ==> rom.total == SIZE) && (rom.activity == Writing ==> rom.total == USED)
         case I2c(eeprom) =>
           eeprom.Valid() && eeprom.Abs() == d && size == sectorSize == FLASH_SECTOR_SIZE
    }

    lemma Sizes()
      requires Valid()
      ensures 0 < sectorSize <= SIZE <= size <= |d.content|
    {
    }

    method Read(offset: nat, image: array<byte>)
      requires Valid() && offset + image.Length <= size
      modifies image
      ensures image[..] == d.content[offset..offset + image.Length]
    {
      var content := match driver
        case Any(any) => any.d.content
        case File(file) => file.file
        case Rom(rom) => rom.chip.flash
        case I2c(eeprom) => eeprom.rom;
      CopyOut(content, offset, image);
    }

    /** With every driver an erase of the store's region is an erase of the assumed device. */
    method Erase(offset: nat, length: nat) returns (done: bool)
      requires Valid() && this !in Parts() && offset == Start() && length == SIZE
      modifies this, Parts()
      ensures Valid() && EraseCall(old(d), d, offset, length, done)
      ensures Works(old(d), d, Erasing, done)
    {
      hide EraseCall;
      match driver {
        case Any(any) =>
          done := any.Erase(offset, length);
          d := any.d;
        case File(file) => done := EraseFile(file);
        case Rom(rom) => done := EraseRom(rom);
        case I2c(eeprom) =>
          var result;
          done, result := eeprom.Erase(offset, length);
          d := eeprom.Abs();
      }
      EraseGrows(old(d), d, offset, length, done);
    }

    method EraseFile(file: FileDevice) returns (done: bool)
      requires Valid() && this !in Parts() && driver == File(file)
      modifies this, Parts()
      ensures Valid() && EraseCall(old(d), d, Start(), SIZE, done)
    {
      hide EraseCall, FileDevice.Valid;
      var result;
      RegionAligned(size);
      done, result := file.Erase(size - SIZE, SIZE);
      d := file.Abs();
      EraseGrows(old(d), d, Start(), SIZE, done);
    }

    method EraseRom(rom: FmcDevice) returns (done: bool)
      requires Valid() && this !in Parts() && driver == Rom(rom)
      modifies this, Parts()
      ensures Valid() && EraseCall(old(d), d, Start(), SIZE, done)
    {
      hide EraseCall;
      var result;
      RegionAligned(size);
      if size - SIZE < rom.bank0End {
        SectorInBank(size - SIZE, rom.bank0End);
      }
      done, result := rom.Erase(size - SIZE, SIZE);
      d := rom.Abs();
      EraseGrows(old(d), d, Start(), SIZE, done);
    }

    /** And a write of the used part is a write of the assumed device. */
    method Write(offset: nat, data: seq<byte>) returns (done: bool)
      requires Valid() && this !in Parts() && offset == Start() && |data| == USED
      modifies this, Parts()
      ensures Valid() && WriteCall(old(d), d, offset, data, done)
      ensures Works(old(d), d, Writing, done)
    {
      hide WriteCall;
      match driver {
        case Any(any) =>
          done := any.Write(offset, data);
          d := any.d;
        case File(file) => done := WriteFile(file, data);
        case Rom(rom) => done := WriteRom(rom, data);
        case I2c(eeprom) =>
          var result;
          done, result := eeprom.Write(offset, data);
          d := eeprom.Abs();
      }
      WriteKeepsSize(old(d), d, offset, data, done);
    }

    method WriteFile(file: FileDevice, data: seq<byte>) returns (done: bool)
      requires Valid() && this !in Parts() && driver == File(file) && |data| == USED
      modifies this, Parts()
      ensures Valid() && WriteCall(old(d), d, Start(), data, done)
    {
      hide WriteCall, FileDevice.Valid;
      var result;
      done, result := file.Write(size - SIZE, data);
      d := file.Abs();
      WriteKeepsSize(old(d), d, Start(), data, done);
    }

    method WriteRom(rom: FmcDevice, data: seq<byte>) returns (done: bool)
      requires Valid() && this !in Parts() && driver == Rom(rom) && |data| == USED
      modifies this, Parts()
      ensures Valid() && WriteCall(old(d), d, Start(), data, done)
    {
      hide WriteCall;
      var result;
      RegionAligned(size);
      done, result := rom.Write(size - SIZE, data);
      d := rom.Abs();
      WriteKeepsSize(old(d), d, Start(), data, done);
    }
  }

  lemma RegionAligned(size: nat)
    requires SIZE <= size
    ensures size % FLASH_SECTOR_SIZE == 0 ==> (size - SIZE) % FLASH_SECTOR_SIZE == 0 && (size - SIZE) % WORD == 0
  {
  }

  /** A sector lies in one bank. */
  lemma SectorInBank(start: nat, bank: nat)
    requires start % FLASH_SECTOR_SIZE == 0 && bank % FLASH_SECTOR_SIZE == 0 && start < bank
    ensures start + SIZE <= bank
  {
  }

  lemma EraseGrows(d: Device, d': Device, offset: nat, n: nat, done: bool)
    requires EraseCall(d, d', offset, n, done)
    ensures Works(d, d', Erasing, done) && |d.content| <= |d'.content|
  {
  }

  lemma WriteKeepsSize(d: Device, d': Device, offset: nat, data: seq<byte>, done: bool)
    requires WriteCall(d, d', offset, data, done)
    ensures Works(d, d', Writing, done) && |d.content| == |d'.content|
  {
  }

  /** The region that the constructor picks lies inside the device exactly when the sector size divides 4096. */
  lemma RegionInside(size: nat, sectorSize: nat)
    requires 0 < sectorSize <= SIZE <= size
    ensures SIZE / sectorSize * sectorSize <= size
    ensures size - SIZE / sectorSize * sectorSize + SIZE <= size <==> SIZE % sectorSize == 0
  {
    assert SIZE == sectorSize * (SIZE / sectorSize) + SIZE % sectorSize;
  }

  /** For one: with sectors of 3072 bytes the region reaches 1024 bytes behind the end. */
  lemma RegionOutside(size: nat)
    requires SIZE <= size
    ensures size - SIZE / 3072 * 3072 + SIZE == size + 1024
  {
  }

  class ConfigStore {
    const image: array<byte>
    const device: StoreDevice
    const hardware: Hardware
    var state: State
    var waitMillis: nat
    var startAddress: nat
    var storeSize: nat

    ghost var history: seq<System>

    ghost predicate Valid()
      reads this, device, device.Parts()
    {
      && image.Length == SIZE && storeSize == USED && waitMillis < WORD_LIMIT
      && device.Valid() && startAddress == device.Start()
      && this !in device.Parts() && image !in device.Parts() && hardware !in device.Parts() && device !in device.Parts()
    }

    ghost function Abs(): System
      requires Valid()
      reads this, image, device, device.Parts(), hardware
    {
      System(image[..], state, waitMillis, startAddress, device.d, hardware.now)
    }

    /** The history is a run from construction up to now; the clock may have been read by others since. */
    ghost predicate Tracked()
      requires Valid()
      reads this, image, device, device.Parts(), hardware
    {
      Run(history) && history[|history| - 1].(now := hardware.now) == Abs() && history[|history| - 1].now <= hardware.now
    }

    /** So with every driver, whenever nothing is left to flush, a restart loads what is in memory. */
    lemma Durable()
      requires Valid() && Tracked() && state == IDLE
      ensures SameUsed(Boot(Region(Abs())).0, Fixup(image[..]))
    {
      hide Boot, Fixup, SameUsed, StoreDevice.Valid;
      NoLostUpdate(history, |history| - 1);
    }

    // ---- construction ----

    /** The prefix sum; the constructor runs the same loop over all stores. */
    method GetStoreOffset(store: nat) returns (offset: nat)
      requires store <= LAST
      ensures offset == Offset(store)
    {
      offset := OFFSET_STORES;
      var i := 0;
      while i < store
        invariant i <= store && offset == Offset(i)
      {
        offset := offset + StoreSize(i);
        i := i + 1;
      }
    }

    method ClearIfOnes(at: nat)
      requires image.Length == SIZE && at + 4 <= SIZE
      modifies image
      ensures image[..] == ClearOnes(old(image[..]), at)
    {
      if image[at] == 255 && image[at + 1] == 255 && image[at + 2] == 255 && image[at + 3] == 255 {
        image[at], image[at + 1], image[at + 2], image[at + 3] := 0, 0, 0, 0;
      }
    }

    /** Compares the signature byte by byte, repairing it on the way. */
    method CheckSignature() returns (ok: bool)
      requires image.Length == SIZE
      modifies image
      ensures ok == Signed(old(image[..]))
      ensures forall k :: 0 <= k < SIZE ==> image[k] == if k < 4 then SIGNATURE[k] else old(image[k])
    {
      ok := true;
      ghost var raw := image[..];
      var i := 0;
      while i < |SIGNATURE|
        invariant i <= 4 && ok == (forall k :: 0 <= k < i ==> raw[k] == SIGNATURE[k])
        invariant forall k :: 0 <= k < SIZE ==> image[k] == if k < i then SIGNATURE[k] else raw[k]
      {
        if SIGNATURE[i] != image[i] {
          image[i] := SIGNATURE[i];
          ok := false;
        }
        i := i + 1;
      }
      assert forall k :: 0 <= k < 4 ==> raw[..4][k] == raw[k];
    }

    /** Everything behind the signature becomes 0. */
    method ClearAll()
      requires image.Length == SIZE
      modifies image
      ensures forall k :: 0 <= k < SIZE ==> image[k] == if k < SIGNATURE_SIZE then old(image[k]) else 0
    {
      var k := SIGNATURE_SIZE;
      while k < SIZE
        invariant SIGNATURE_SIZE <= k <= SIZE
        invariant forall x :: 0 <= x < SIZE ==> image[x] == if SIGNATURE_SIZE <= x < k then 0 else old(image[x])
      {
        image[k] := 0;
        k := k + 1;
      }
    }

    method FixSetLists()
      requires image.Length == SIZE
      modifies image
      ensures image[..] == FixStores(old(image[..]), LAST)
    {
      hide StoreSize, Offset, ClearOnes;
      ghost var m0: Image := image[..];
      var j := 0;
      assert FixStores(m0, 0) == m0;
      while j < LAST
        invariant j <= LAST && image[..] == FixStores(m0, j)
      {
        StoreInside(j);
        var offset := GetStoreOffset(j);
        ClearIfOnes(offset);
        j := j + 1;
      }
    }

    constructor (image: array<byte>, device: StoreDevice, hardware: Hardware)
      requires image.Length == SIZE && device.Valid() && SIZE % device.sectorSize == 0
      requires image !in device.Parts() && hardware !in device.Parts() && device !in device.Parts()
      modifies image
      ensures Valid() && startAddress == device.size - SIZE
      ensures this.image == image && this.device == device && this.hardware == hardware
      ensures var raw: Image := if device.detected then Region(Abs()) else old(image[..]);
              image[..] == Boot(raw).0 && state == if Boot(raw).1 then CHANGED else IDLE
      ensures device.detected ==> Initial(Abs()) && history == [Abs()] && Tracked()
    {
      hide Boot, StoreDevice.Valid, Run;
      device.Sizes();
      this.image, this.device, this.hardware := image, device, hardware;
      state, waitMillis := IDLE, 0;
      var sectors := SIZE / device.sectorSize;
      RegionInside(device.size, device.sectorSize);
      startAddress := device.size - sectors * device.sectorSize;
      storeSize := 0;
      new;
      if device.detected {
        device.Read(startAddress, image);
      }
      Load();
      storeSize := SumOfSizes();
      history := [Abs()];
      if device.detected {
        RunStarts(Abs());
      }
    }

    /** The same prefix sum over all stores. */
    method SumOfSizes() returns (sum: nat)
      ensures sum == USED
    {
      hide StoreSize, Offset;
      sum := GetStoreOffset(LAST);
      UsedSize();
    }

    /** What the constructor does once the raw image is in memory. */
    method Load()
      requires image.Length == SIZE && state == IDLE
      modifies this`state, image
      ensures image[..] == Boot(old(image[..])).0
      ensures state == if Boot(old(image[..])).1 then CHANGED else IDLE
    {
      hide StoreSize, Offset, FixStores, ClearOnes;
      ghost var raw: Image := image[..];
      var ok := CheckSignature();
      if !ok {
        ClearAll();
        state := CHANGED;
        assert image[..] == SIGNATURE + raw[4..SIGNATURE_SIZE] + seq(SIZE - SIGNATURE_SIZE, _ => 0);
      } else {
        assert forall k :: 0 <= k < 4 ==> raw[..4][k] == raw[k];
        assert image[..] == raw;
      }
      FixSetLists();
      ClearIfOnes(SIGNATURE_SIZE);
    }

    /** Notes the state after a step. */
    ghost method Track(s0: System, e: Event, tracked: bool)
      requires Valid() && Next(s0, e, Abs())
      requires tracked ==> Run(history) && history[|history| - 1].(now := s0.now) == s0 && history[|history| - 1].now <= s0.now
      modifies this`history
      ensures Valid() && Abs() == old(Abs()) && history == old(history) + [Abs()] && (tracked ==> Tracked())
    {
      hide Next, Run, StoreDevice.Valid;
      if tracked {
        RunGoesOn(history, s0, e, Abs());
      }
      history := history + [Abs()];
    }

    // ---- operations on the image ----

    /** The byte-compare loop of `Update`. */
    method Overwrite(base: nat, data: seq<byte>) returns (changed: bool)
      requires image.Length == SIZE && base + |data| <= SIZE
      modifies image
      ensures image[..] == Splice(old(image[..]), base, data)
      ensures changed == (image[..] != old(image[..]))
    {
      ghost var m0 := image[..];
      changed := false;
      var i := 0;
      while i < |data|
        invariant i <= |data|
        invariant forall k :: 0 <= k < SIZE ==> image[k] == if base <= k < base + i then data[k - base] else m0[k]
        invariant changed == !(forall k :: base <= k < base + i ==> m0[k] == data[k - base])
      {
        if data[i] != image[base + i] {
          changed := true;
          image[base + i] := data[i];
        }
        i := i + 1;
      }
      ghost var m1 := Splice(m0, base, data);
      assert forall k :: base <= k < base + |data| ==> m1[k] == data[k - base];
    }

    method OrSetList(at: nat, setList: nat)
      requires image.Length == SIZE && at + 4 <= SIZE
      modifies image
      ensures image[..] == OrWord(old(image[..]), at, setList)
    {
      hide OrByte, ByteOf;
      image[at], image[at + 1], image[at + 2], image[at + 3] :=
        OrByte(image[at], ByteOf(setList, 0)), OrByte(image[at + 1], ByteOf(setList, 1)),
        OrByte(image[at + 2], ByteOf(setList, 2)), OrByte(image[at + 3], ByteOf(setList, 3));
    }

    method Update(store: nat, off: nat, data: seq<byte>, setList: nat, offSet: nat)
      requires Valid() && UpdateOk(store, off, data, setList, offSet)
      modifies this`state, this`history, image
      ensures Valid() && Next(old(Abs()), ConfigRuns.Update(store, off, data, setList, offSet), Abs())
      ensures history == old(history) + [Abs()] && (old(Tracked()) ==> Tracked())
    {
      hide Next, Run, StoreDevice.Valid;
      ghost var s0, tracked := Abs(), Tracked();
      UpdateImage(store, off, data, setList, offSet);
      Track(s0, ConfigRuns.Update(store, off, data, setList, offSet), tracked);
    }

    method UpdateImage(store: nat, off: nat, data: seq<byte>, setList: nat, offSet: nat)
      requires Valid() && UpdateOk(store, off, data, setList, offSet)
      modifies this`state, image
      ensures Valid() && Next(old(Abs()), ConfigRuns.Update(store, off, data, setList, offSet), Abs())
    {
      hide StoreSize, Offset, Splice, OrWord, StoreDevice.Valid;
      StoreInside(store);
      var offset := GetStoreOffset(store);
      var changed := Overwrite(off + offset, data);
      if changed {
        OrSetList(offset + offSet, setList);
        state := CHANGED;
      }
      assert image[..] == UpdateSpec(old(image[..]), store, off, data, setList, offSet);
    }

    /** Copies `n` bytes of a store into `buffer`; an empty slice is seeded from the buffer instead. */
    method Copy(store: nat, buffer: array<byte>, n: nat, off: nat, doUpdate: bool)
      requires Valid() && n <= buffer.Length && buffer != image && CopyOk(store, buffer[..n], off)
      modifies this`state, this`history, image, buffer
      ensures Valid() && Next(old(Abs()), ConfigRuns.Copy(store, old(buffer[..n]), off, doUpdate), Abs())
      ensures buffer[..n] == CopySpec(old(image[..]), store, old(buffer[..n]), off, doUpdate).1
      ensures buffer[n..] == old(buffer[n..])
      ensures history == old(history) + [Abs()] && (old(Tracked()) ==> Tracked())
    {
      hide Next, Run, StoreDevice.Valid, CopySpec, Slice, Offset, StoreSize;
      ghost var s0, tracked, b0 := Abs(), Tracked(), buffer[..n];
      CopyImage(store, buffer, n, off, doUpdate);
      Track(s0, ConfigRuns.Copy(store, b0, off, doUpdate), tracked);
    }

    method CopyImage(store: nat, buffer: array<byte>, n: nat, off: nat, doUpdate: bool)
      requires Valid() && n <= buffer.Length && buffer != image && CopyOk(store, buffer[..n], off)
      modifies this`state, image, buffer
      ensures Valid() && Next(old(Abs()), ConfigRuns.Copy(store, old(buffer[..n]), off, doUpdate), Abs())
      ensures buffer[..n] == CopySpec(old(image[..]), store, old(buffer[..n]), off, doUpdate).1
      ensures buffer[n..] == old(buffer[n..])
    {
      hide StoreSize, Offset, UpdateSpec, StoreDevice.Valid;
      StoreInside(store);
      ghost var m0: Image := image[..];
      var base := GetStoreOffset(store);
      base := base + off;
      ghost var s := Slice(m0, store)[off..off + n];
      assert forall k :: 0 <= k < n ==> s[k] == m0[base + k];
      var empty := true;
      var i := 0;
      while i < n
        invariant i <= n && empty == (forall k :: 0 <= k < i ==> s[k] == 0)
      {
        assert s[i] == image[base + i];
        if image[base + i] != 0 {
          empty := false;
          break;
        }
        i := i + 1;
      }
      assert empty == AllZero(s);
      if !empty {
        i := 0;
        while i < n
          invariant i <= n && image[..] == m0 && state == old(state) && buffer[n..] == old(buffer[n..])
          invariant forall k :: 0 <= k < i ==> buffer[k] == s[k]
        {
          buffer[i] := image[base + i];
          i := i + 1;
        }
        assert buffer[..n] == s;
        assert Abs() == old(Abs());
        assert CopySpec(m0, store, old(buffer[..n]), off, doUpdate) == (m0, s);
        assert !CopyDirty(m0, store, old(buffer[..n]), off, doUpdate);
        return;
      }
      if doUpdate {
        UpdateImage(store, 0, buffer[..n], 0, 0);
      }
    }

    method ResetSetList(store: nat)
      requires Valid() && store < LAST
      modifies this`state, this`history, image
      ensures Valid() && Next(old(Abs()), ConfigRuns.ResetSetList(store), Abs())
      ensures history == old(history) + [Abs()] && (old(Tracked()) ==> Tracked())
    {
      hide Next, Run, StoreDevice.Valid;
      ghost var s0, tracked := Abs(), Tracked();
      ClearSetList(store);
      Track(s0, ConfigRuns.ResetSetList(store), tracked);
    }

    method ClearSetList(store: nat)
      requires Valid() && store < LAST
      modifies this`state, image
      ensures Valid() && Next(old(Abs()), ConfigRuns.ResetSetList(store), Abs())
    {
      hide StoreSize, Offset, StoreDevice.Valid;
      StoreInside(store);
      ghost var m0: Image := image[..];
      var at := GetStoreOffset(store);
      image[at] := 0;
      image[at + 1] := 0;
      image[at + 2] := 0;
      image[at + 3] := 0;
      assert image[..] == Splice(m0, at, [0, 0, 0, 0]);
      state := CHANGED;
    }

    method ResetSetListAll()
      requires Valid()
      modifies this`state, this`history, image
      ensures Valid() && state == CHANGED && old(history) <= history && (old(Tracked()) ==> Tracked())
      ensures image[..] == ResetLists(old(image[..]), LAST)
      ensures Inv(old(Abs())) ==> Inv(Abs())
    {
      hide StoreSize, Offset, ResetSpec, Inv, StoreDevice.Valid;
      var i := 0;
      while i < LAST
        invariant i <= LAST && Valid() && (i > 0 ==> state == CHANGED)
        invariant image[..] == ResetLists(old(image[..]), i)
        invariant Inv(old(Abs())) ==> Inv(Abs())
        invariant old(history) <= history && (old(Tracked()) ==> Tracked())
      {
        ghost var s := Abs();
        ResetSetList(i);
        if Inv(s) {
          StepKeepsInv(s, ConfigRuns.ResetSetList(i), Abs());
        }
        i := i + 1;
      }
    }

    method Delay()
      requires Valid()
      modifies this`state, this`history
      ensures Valid() && Next(old(Abs()), ConfigRuns.Delay, Abs())
      ensures history == old(history) + [Abs()] && (old(Tracked()) ==> Tracked())
    {
      ghost var s0, tracked := Abs(), Tracked();
      if state != IDLE {
        state := CHANGED;
      }
      Track(s0, ConfigRuns.Delay, tracked);
    }

    // ---- environment ----

    method GetEnvUtcOffset() returns (offset: int)
      requires Valid()
      ensures offset == UtcOffset(image[..])
    {
      var w := LoadWord(image, SIGNATURE_SIZE);
      offset := if w < 0x8000_0000 then w else w - WORD_LIMIT;
    }

    method SetEnvUtcOffset(hours: int, minutes: nat) returns (ok: bool)
      requires Valid()
      modifies this`state, this`history, image
      ensures Valid() && ok == UtcValidate(hours, minutes).0
      ensures history == old(history) + [Abs()] && (old(Tracked()) ==> Tracked())
      ensures Next(old(Abs()), ConfigRuns.SetEnvUtcOffset(hours, minutes), Abs())
      ensures ok ==> UtcOffset(image[..]) == UtcValidate(hours, minutes).1
    {
      hide Next, Run, StoreDevice.Valid, UtcValidate;
      ghost var s0, tracked := Abs(), Tracked();
      ok := StoreUtcOffset(hours, minutes);
      Track(s0, ConfigRuns.SetEnvUtcOffset(hours, minutes), tracked);
    }

    method StoreUtcOffset(hours: int, minutes: nat) returns (ok: bool)
      requires Valid()
      modifies this`state, image
      ensures Valid() && ok == UtcValidate(hours, minutes).0
      ensures Next(old(Abs()), ConfigRuns.SetEnvUtcOffset(hours, minutes), Abs())
      ensures ok ==> UtcOffset(image[..]) == UtcValidate(hours, minutes).1
    {
      hide UtcValidate, StoreDevice.Valid, ByteOf;
      var r := UtcValidate(hours, minutes);
      ok := r.0;
      if ok {
        var offset := r.1;
        ghost var m0: Image := image[..];
        var current := GetEnvUtcOffset();
        if current != offset {
          var w := if offset < 0 then offset + WORD_LIMIT else offset;
          image[16], image[17], image[18], image[19] := ByteOf(w, 0), ByteOf(w, 1), ByteOf(w, 2), ByteOf(w, 3);
          UtcOffsetStored(m0, offset);
          assert image[..] == WithUtcOffset(m0, offset);
          state := CHANGED;
        }
      }
    }

    /** The two-argument form: hours and minutes of the offset. */
    method GetEnvUtcHoursMinutes() returns (hours: int, minutes: nat)
      requires Valid() && -128 <= Quotient(UtcOffset(image[..]), 3600) <= 127
      ensures (hours, minutes) == HoursMinutes(UtcOffset(image[..]))
    {
      var offset := GetEnvUtcOffset();
      hours := Quotient(offset, 3600);
      if hours > 0 {
        minutes := (offset - hours * 3600) % WORD_LIMIT / 60 % 256;
      } else {
        minutes := (hours * 3600 - offset) % WORD_LIMIT / 60 % 256;
      }
    }

    // ---- flushing ----

    ghost function Rank(): nat
      reads this
    {
      match state
      case IDLE => 0
      case CHANGED => 6
      case CHANGED_WAITING => 5
      case ERASING => 4
      case ERASED_WAITING => 3
      case ERASED => 2
      case WRITING => 1
    }

    ghost predicate Waiting()
      reads this
    {
      state == CHANGED_WAITING || state == ERASED_WAITING
    }

    /** How long the current state can still last: time to wait, or whether the device has begun. */
    ghost function Remaining(): nat
      reads this, device, hardware
    {
      if Waiting() then
        var e := Elapsed(hardware.now, waitMillis);
        if e < DEBOUNCE then DEBOUNCE - e else DEBOUNCE + 1
      else if (state == ERASING && device.d.activity != Erasing) || (state == WRITING && device.d.activity != Writing) then 1
      else 0
    }

    ghost function Stalls(): nat
      reads this, device, hardware
    {
      if Waiting() then hardware.stall
      else if state == ERASING || state == WRITING then device.d.left
      else 0
    }

    /** The 100 ms test: reads the clock and compares the wrapped difference. */
    method TimeIsUp() returns (up: bool)
      requires waitMillis < WORD_LIMIT
      modifies hardware
      ensures old(hardware.now) <= hardware.now && up == !(Elapsed(hardware.now, waitMillis) < DEBOUNCE)
      ensures !up && Waiting() ==>
                Remaining() < old(Remaining()) || (Remaining() == old(Remaining()) && Stalls() < old(Stalls()))
    {
      ghost var was, t0 := Elapsed(hardware.now, waitMillis), hardware.now;
      var ms := hardware.Millis();
      if was < DEBOUNCE {
        ElapsedGrows(t0, hardware.now, waitMillis);
      }
      up := !((ms - waitMillis) % WORD_LIMIT < 100);
    }

    method Flash() returns (more: bool)
      requires Valid()
      modifies this`state, this`waitMillis, this`history, device, device.Parts(), hardware
      ensures Valid() && old(Abs()).now <= Abs().now && FlashStep(old(Abs()), Abs(), more)
      ensures history == old(history) + [Abs()] && (old(Tracked()) ==> Tracked())
      ensures more ==> Progress(old(Rank()), old(Remaining()), old(Stalls()))
    {
      hide FlashStep, StoreDevice.Valid;
      ghost var s0, tracked := Abs(), Tracked();
      more := Poll();
      assert Next(s0, ConfigRuns.Flash, Abs());
      Track(s0, ConfigRuns.Flash, tracked);
    }

    /** The switch over the state. */
    method Poll() returns (more: bool)
      requires Valid()
      modifies this`state, this`waitMillis, device, device.Parts(), hardware
      ensures Valid() && old(Abs()).now <= Abs().now && FlashStep(old(Abs()), Abs(), more)
      ensures more ==> Progress(old(Rank()), old(Remaining()), old(Stalls()))
    {
      hide EraseCall, WriteCall, Elapsed, StoreDevice.Valid;
      if state == IDLE {
        return false;
      }
      match state
      case CHANGED =>
        waitMillis := hardware.Millis();
        state := CHANGED_WAITING;
        more := true;
      case CHANGED_WAITING =>
        var up := TimeIsUp();
        if !up {
          return true;
        }
        state := ERASING;
        more := true;
      case ERASING =>
        CallErase();
        more := true;
      case ERASED_WAITING =>
        var up := TimeIsUp();
        if !up {
          return true;
        }
        state := ERASED;
        more := true;
      case ERASED =>
        state := WRITING;
        more := true;
      case WRITING =>
        more := CallWrite();
    }

    ghost predicate Progress(rank: nat, remaining: nat, stalls: nat)
      reads this, device, hardware
    {
      || Rank() < rank
      || (Rank() == rank && Remaining() < remaining)
      || (Rank() == rank && Remaining() == remaining && Stalls() < stalls)
    }

    method CallErase()
      requires Valid() && state == ERASING
      modifies this`state, this`waitMillis, device, device.Parts(), hardware
      ensures Valid() && old(Abs()).now <= Abs().now && FlashStep(old(Abs()), Abs(), true)
      ensures Progress(old(Rank()), old(Remaining()), old(Stalls()))
    {
      hide EraseCall, WriteCall, Elapsed, StoreDevice.Valid;
      var done := device.Erase(startAddress, SIZE);
      if done {
        waitMillis := hardware.Millis();
        state := ERASED_WAITING;
      }
    }

    method CallWrite() returns (more: bool)
      requires Valid() && state == WRITING
      modifies this`state, this`waitMillis, device, device.Parts(), hardware
      ensures Valid() && old(Abs()).now <= Abs().now && FlashStep(old(Abs()), Abs(), more)
      ensures more ==> Progress(old(Rank()), old(Remaining()), old(Stalls()))
    {
      hide EraseCall, WriteCall, Elapsed, StoreDevice.Valid;
      var done := device.Write(startAddress, image[..storeSize]);
      if done {
        state := IDLE;
        return false;
      }
      more := true;
    }

    /** The destructor: polls until nothing is left to flush. It terminates from every state, and what a restart
        would load is then the image in memory. */
    method Drain()
      requires Valid()
      modifies this`state, this`waitMillis, this`history, device, device.Parts(), hardware
      ensures Valid() && state == IDLE && old(history) <= history && (old(Tracked()) ==> Tracked())
      ensures image[..] == old(image[..])
      ensures Inv(old(Abs())) ==> Inv(Abs()) && SameUsed(Boot(Region(Abs())).0, Fixup(image[..]))
    {
      hide StoreDevice.Valid;
      ghost var s0 := Abs();
      var more := true;
      while more
        invariant Valid() && image[..] == old(image[..])
        invariant Inv(s0) ==> Inv(Abs())
        invariant old(history) <= history && (old(Tracked()) ==> Tracked())
        invariant !more ==> state == IDLE
        decreases more, Rank(), Remaining(), Stalls()
      {
        ghost var s := Abs();
        more := Flash();
        if Inv(s) {
          FlashKeepsInv(s, Abs(), more);
        }
      }
    }
  }
}
