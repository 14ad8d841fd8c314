/** The internal-flash drivers of the GD32 boards, lib-flashcode/src/gd32, that lib-configstore/device/rom calls: the
    state machines of fmc/flashcode.cpp and h7xx/flashcode.cpp over one model of the flash controller. */
module FlashDrivers {
  import opened Wrappers
  import opened Memory
  import opened Digits
  import opened ConfigRuns
  import opened ConfigDevices

  const WORD := 4
  const BANK0_PAGE := 2048
  const BANK1_PAGE := 4096

  // ---- the flash controller ----

  /** Flash that is erased by pages and programmed by words. After a command it answers busy for a while, but not more
      often than `patience` times; it takes no command while busy, while locked, or with the wrong control bit set. */
  class FlashChip {
    const size: nat
    const bank0End: nat
    const patience: nat
    var flash: seq<byte>
    var busy: nat
    var unlocked: bool
    var per: bool
    var pg: bool

    ghost var blank: set<nat>

    /** The pages of the first bank have 2 kB, those of the second one 4 kB. */
    function PageSize(a: nat): nat {
      if a < bank0End then 2048 else 4096
    }

    ghost predicate Valid()
      reads this
    {
      && |flash| == size && size % FLASH_SECTOR_SIZE == 0 && bank0End % FLASH_SECTOR_SIZE == 0
      && busy <= patience && ReadErased(flash, blank)
    }

    lemma Sizes()
      requires Valid()
      ensures |flash| == size && busy <= patience
    {
    }

    method SetPg(b: bool)
      requires Valid()
      modifies this`pg
      ensures Valid() && pg == b
    {
      pg := b;
    }

    method SetPer(b: bool)
      requires Valid()
      modifies this`per
      ensures Valid() && per == b
    {
      per := b;
    }

    method SetUnlocked(b: bool)
      requires Valid()
      modifies this`unlocked
      ensures Valid() && unlocked == b
    {
      unlocked := b;
    }

    method IsBusy() returns (b: bool)
      requires Valid()
      modifies this`busy
      ensures Valid() && if b then busy < old(busy) else busy == 0
    {
      b := false;
      if busy > 0 {
        b := *;
        busy := if b then busy - 1 else 0;
      }
    }

    /** How often the chip is going to answer busy after a command. */
    method AfterCommand() returns (b: nat)
      ensures b <= patience
    {
      b := *;
      if b > patience {
        b := patience;
      }
    }

    /** Erases the whole page that starts there. */
    method ErasePage(page: nat)
      requires Valid() && page % PageSize(page) == 0 && page + PageSize(page) <= size
      requires busy == 0 && unlocked && per && !pg
      modifies this`flash, this`busy, this`blank
      ensures Valid() && blank == old(blank) + Range(page, PageSize(page))
      ensures forall a :: 0 <= a < size ==> flash[a] == if page <= a < page + PageSize(page) then 255 else old(flash)[a]
    {
      var was, n := flash, PageSize(page);
      flash := seq(size, a requires 0 <= a < |was| => if page <= a < page + n then 255 else was[a]);
      blank := blank + Range(page, n);
      busy := AfterCommand();
    }

    /** A byte that was erased, or that holds its value already, takes it; any other one may end up as anything. */
    method Program(address: nat, word: seq<byte>)
      requires Valid() && |word| == WORD && address + WORD <= size && busy == 0 && unlocked && pg && !per
      modifies this`flash, this`busy, this`blank
      ensures Valid() && WordProgrammed(old(flash), old(blank), flash, blank, address, word)
    {
      var was, unknown: seq<byte> := flash, *;
      flash := seq(size, a requires 0 <= a < |was| =>
        if !(address <= a < address + WORD) then was[a]
        else if was[a] == 255 || was[a] == word[a - address] || a >= |unknown| then word[a - address]
        else unknown[a]);
      blank := blank - Range(address, WORD);
      busy := AfterCommand();
    }
  }

  /** Bytes that are ready read as erased. */
  ghost predicate ReadErased(flash: seq<byte>, blank: set<nat>) {
    forall a :: a in blank && a < |flash| ==> flash[a] == 255
  }

  /** What programming a word leaves. */
  ghost predicate WordProgrammed(was: seq<byte>, blank: set<nat>, now: seq<byte>, blank': set<nat>, address: nat, word: seq<byte>)
    requires |word| == WORD && address + WORD <= |was|
  {
    && |now| == |was| && blank' == blank - Range(address, WORD)
    && (forall a :: 0 <= a < |was| && !(address <= a < address + WORD) ==> now[a] == was[a])
    && (forall a :: address <= a < address + WORD && (a in blank || was[a] == word[a - address]) ==> now[a] == word[a - address])
  }

  // ---- bounds on the calls to come ----

  /** Polls and commands for some pages or words: each is asked for, and then the chip is busy. */
  ghost function Polls(units: nat, patience: nat): nat {
    units * (patience + 2)
  }

  lemma OneUnitLess(length: nat, unit: nat, patience: nat)
    requires 0 < unit <= length
    ensures length / unit == (length - unit) / unit + 1
    ensures Polls(length / unit, patience) == Polls((length - unit) / unit, patience) + patience + 2
  {
    UnitOff(length, unit);
    var u := (length - unit) / unit;
    assert (u + 1) * (patience + 2) == u * (patience + 2) + (patience + 2);
  }

  lemma UnitOff(length: nat, unit: nat)
    requires 0 < unit <= length
    ensures length / unit == (length - unit) / unit + 1 && length % unit == (length - unit) % unit
  {
    var q, r := (length - unit) / unit, (length - unit) % unit;
    assert length == (q + 1) * unit + r;
    LastDigit(length / unit, length % unit, q + 1, r, unit);
  }

  /** Every address from `lo` up to `hi` is ready to be programmed. */
  ghost predicate AllBlank(lo: nat, hi: nat, blank: set<nat>) {
    forall a :: lo <= a < hi ==> a in blank
  }

  /** What lies behind the data in memory. */
  method AnyBytes(n: nat) returns (s: seq<byte>)
    ensures |s| == n
  {
    var any: seq<byte> := *;
    s := seq(n, k requires 0 <= k < n => if k < |any| then any[k] else 0);
  }

  datatype FlashState = Ready | EraseBusy | EraseProgram | WriteBusy | WriteProgram

  // ---- fmc/flashcode.cpp ----

  /** Both operations share one state. An erase that finds a write under way first abandons it, and a write an erase. */
  class FmcDevice {
    const chip: FlashChip
    const bank0End: nat
    var state: FlashState
    var page: nat
    var length: nat
    var address: nat
    var index: nat
    var isBank0: bool

    ghost var activity: Activity
    ghost var base: nat
    ghost var total: nat

    constructor (chip: FlashChip, bank0End: nat)
      requires chip.Valid() && !chip.per && !chip.pg && bank0End == chip.bank0End
      ensures Valid() && this.chip == chip && this.bank0End == bank0End && state == Ready && activity == Resting
    {
      this.chip, this.bank0End := chip, bank0End;
      state, page, length, address, index, isBank0 := Ready, 0, 0, 0, 0, false;
      activity, base, total := Resting, 0, 0;
    }

    ghost function Unit(): nat
      reads this
    {
      if activity == Writing then WORD else if base < bank0End then BANK0_PAGE else BANK1_PAGE
    }

    ghost predicate Valid()
      reads this, chip
    {
      && chip.Valid() && bank0End == chip.bank0End && base + total <= chip.size
      && match state
         case Ready => !chip.per && !chip.pg
         case EraseBusy => ErasingValid()
         case EraseProgram => ErasingValid() && !chip.per && chip.busy == 0 && length >= Unit()
         case WriteBusy => WritingValid()
         case WriteProgram => WritingValid() && !chip.pg && chip.busy == 0 && length > 0
    }

    ghost predicate ErasingValid()
      reads this, chip
    {
      && activity == Erasing && chip.unlocked && !chip.pg && isBank0 == (base < bank0End)
      && length % Unit() == 0 && length <= total && page == base + total - length && page % Unit() == 0
      && (base < bank0End ==> base + total <= bank0End)
      && AllBlank(base, page, chip.blank)
    }

    ghost predicate WritingValid()
      reads this, chip
    {
      && activity == Writing && chip.unlocked && !chip.per
      && base % WORD == 0 && index % WORD == 0 && length + index == total && address == base + index
      && Behind(base, index, chip.blank)
    }

    ghost function Further(): nat
      reads this, chip
    {
      var polls := Polls(length / Unit(), chip.patience);
      match state
      case Ready => if activity == Resting then 0 else chip.patience + Polls(total / Unit(), chip.patience) + 1
      case EraseBusy => chip.busy + polls
      case EraseProgram => if polls > 0 then polls - 1 else 0
      case WriteBusy => chip.busy + polls
      case WriteProgram => if polls > 0 then polls - 1 else 0
    }

    ghost function Abs(): Device
      reads this, chip
    {
      Device(chip.flash, chip.blank, activity, Further())
    }

    /** A region that an erase may be called for, and that goes with what is under way. */
    ghost predicate EraseOk(offset: nat, n: nat)
      reads this, chip
    {
      && Valid() && offset % FLASH_SECTOR_SIZE == 0 && n % FLASH_SECTOR_SIZE == 0 && offset + n <= chip.size
      && (offset < bank0End ==> offset + n <= bank0End)
      && (activity != Resting ==> offset == base) && (activity == Erasing ==> n == total)
    }

    ghost predicate WriteOk(offset: nat, data: seq<byte>)
      reads this, chip
    {
      && Valid() && offset % WORD == 0 && offset + |data| <= chip.size
      && (activity != Resting ==> offset == base) && (activity == Writing ==> |data| == total)
    }

    method Erase(offset: nat, n: nat) returns (done: bool, result: Result)
      requires EraseOk(offset, n)
      modifies this, chip
      ensures Valid() && result == OK && EraseCall(old(Abs()), Abs(), offset, n, done)
      ensures base == offset && total == n && (if done then state == Ready && activity == Resting else activity == Erasing)
      ensures old(state) != WriteBusy && old(state) != WriteProgram && !done ==> state != Ready
      ensures old(state) == WriteBusy || old(state) == WriteProgram ==> state == Ready && !done && chip.flash == old(chip.flash)
    {
      result := OK;
      match state
      case Ready =>
        EraseStart(offset, n);
        done := false;
      case EraseBusy =>
        done := EraseWait(offset, n);
      case EraseProgram =>
        EraseNext(offset, n);
        done := false;
      case WriteBusy =>
        chip.SetPg(false);
        state := Ready;
        activity, total := Erasing, n;
        done := false;
      case WriteProgram =>
        state := Ready;
        activity, total := Erasing, n;
        done := false;
    }

    method EraseStart(offset: nat, n: nat)
      requires EraseOk(offset, n) && state == Ready
      modifies this, chip
      ensures Valid() && EraseCall(old(Abs()), Abs(), offset, n, false) && base == offset && total == n && state == EraseBusy
    {
      hide Polls;
      page := offset;
      length := n;
      isBank0 := offset < bank0End;
      chip.SetUnlocked(true);
      state := EraseBusy;
      activity, base, total := Erasing, offset, n;
      SectorsArePages(n);
      SectorsArePages(offset);
    }

    method EraseWait(offset: nat, n: nat) returns (done: bool)
      requires EraseOk(offset, n) && state == EraseBusy
      modifies this, chip
      ensures Valid() && EraseCall(old(Abs()), Abs(), offset, n, done) && base == offset && total == n
      ensures if done then state == Ready && activity == Resting else state != Ready
    {
      hide Polls;
      ghost var l := length;
      if length > 0 {
        WholeUnits(length, Unit());
        OneUnitLess(length, Unit(), chip.patience);
      }
      var busy := chip.IsBusy();
      if busy {
        return false;
      }
      chip.SetPer(false);
      if length == 0 {
        chip.SetUnlocked(false);
        state := Ready;
        activity := Resting;
        return true;
      }
      state := EraseProgram;
      done := false;
    }

    method EraseNext(offset: nat, n: nat)
      requires EraseOk(offset, n) && state == EraseProgram
      modifies this, chip
      ensures Valid() && EraseCall(old(Abs()), Abs(), offset, n, false) && base == offset && total == n && state == EraseBusy
    {
      hide Polls, ReadErased;
      ghost var d := Abs();
      OneUnitLess(length, Unit(), chip.patience);
      UnitOff(length, Unit());
      UnitOff(page + Unit(), Unit());
      chip.SetPer(true);
      var size := if isBank0 then BANK0_PAGE else BANK1_PAGE;
      chip.ErasePage(page);
      length := length - size;
      page := page + size;
      state := EraseBusy;
    }

    method Write(offset: nat, data: seq<byte>) returns (done: bool, result: Result)
      requires WriteOk(offset, data)
      modifies this, chip
      ensures Valid() && result == OK
      ensures |data| % WORD == 0 ==> WriteCall(old(Abs()), Abs(), offset, data, done)
      ensures |data| % WORD != 0 ==> !done
      ensures base == offset && total == |data| && (if done then state == Ready && activity == Resting else activity == Writing)
      ensures old(state) != EraseBusy && old(state) != EraseProgram && !done ==> state != Ready
    {
      result := OK;
      match state
      case Ready =>
        WriteStart(offset, data);
        done := false;
      case WriteBusy =>
        done := WriteWait(offset, data);
      case WriteProgram =>
        WriteNext(offset, data);
        done := false;
      case EraseBusy =>
        ghost var d := Abs();
        chip.SetPer(false);
        state := Ready;
        activity, total := Writing, |data|;
        WaitIsCall(d, Abs(), offset, data, false);
        done := false;
      case EraseProgram =>
        ghost var d := Abs();
        state := Ready;
        activity, total := Writing, |data|;
        WaitIsCall(d, Abs(), offset, data, false);
        done := false;
    }

    method WriteStart(offset: nat, data: seq<byte>)
      requires WriteOk(offset, data) && state == Ready
      modifies this, chip
      ensures Valid() && WriteCall(old(Abs()), Abs(), offset, data, false) && base == offset && total == |data|
      ensures state == WriteBusy
    {
      hide Polls, WriteCall, ReadErased, ErasingValid;
      ghost var d := Abs();
      address := offset;
      index := 0;
      length := |data|;
      isBank0 := offset < bank0End;
      chip.SetUnlocked(true);
      state := WriteBusy;
      activity, base, total := Writing, offset, |data|;
      WaitIsCall(d, Abs(), offset, data, false);
    }

    method WriteWait(offset: nat, data: seq<byte>) returns (done: bool)
      requires WriteOk(offset, data) && state == WriteBusy
      modifies this, chip
      ensures Valid() && base == offset && total == |data|
      ensures if done then state == Ready && activity == Resting else state == WriteBusy || state == WriteProgram
      ensures |data| % WORD == 0 ==> WriteCall(old(Abs()), Abs(), offset, data, done)
      ensures |data| % WORD != 0 ==> !done
    {
      hide Polls, WriteCall, ReadErased, Behind, ErasingValid, FlashChip.Valid;
      chip.Sizes();
      ghost var d := Abs();
      var busy := chip.IsBusy();
      if busy {
        WaitIsCall(d, Abs(), offset, data, false);
        return false;
      }
      done := WriteReady(offset, data, d);
    }

    /** The rest of that poll once the chip is ready; `d` is the device before it. */
    method WriteReady(offset: nat, data: seq<byte>, ghost d: Device) returns (done: bool)
      requires WriteOk(offset, data) && state == WriteBusy && chip.busy == 0
      requires d.content == chip.flash && d.blank == chip.blank && d.activity == Writing && d.left >= Further()
      modifies this, chip
      ensures Valid() && base == offset && total == |data|
      ensures if done then state == Ready && activity == Resting else state == WriteProgram
      ensures |data| % WORD == 0 ==> WriteCall(d, Abs(), offset, data, done)
      ensures |data| % WORD != 0 ==> !done
    {
      hide WriteCall, ReadErased, Behind, ErasingValid, FlashChip.Valid, Further;
      if length == 0 {
        WriteFinish(offset, data, d);
        return true;
      }
      WriteGoesOn(offset, data, d);
      done := false;
    }

    method WriteFinish(offset: nat, data: seq<byte>, ghost d: Device)
      requires WriteOk(offset, data) && state == WriteBusy && length == 0
      requires d.content == chip.flash && d.blank == chip.blank
      modifies this, chip
      ensures Valid() && base == offset && total == |data| && state == Ready && activity == Resting
      ensures |data| % WORD == 0 && WriteCall(d, Abs(), offset, data, true)
    {
      hide WriteCall, ReadErased, Behind, ErasingValid, FlashChip.Valid, Polls;
      chip.Sizes();
      chip.SetPg(false);
      chip.SetUnlocked(false);
      state := Ready;
      activity := Resting;
      WaitIsCall(d, Abs(), offset, data, true);
    }

    method WriteGoesOn(offset: nat, data: seq<byte>, ghost d: Device)
      requires WriteOk(offset, data) && state == WriteBusy && chip.busy == 0 && length > 0
      requires d.content == chip.flash && d.blank == chip.blank && d.activity == Writing && d.left >= Further()
      modifies this, chip
      ensures Valid() && base == offset && total == |data| && state == WriteProgram
      ensures |data| % WORD == 0 ==> WriteCall(d, Abs(), offset, data, false)
    {
      hide WriteCall, ReadErased, Behind, ErasingValid, FlashChip.Valid, Polls;
      chip.Sizes();
      if length >= WORD {
        OneUnitLess(length, WORD, chip.patience);
      }
      chip.SetPg(false);
      state := WriteProgram;
      if |data| % WORD == 0 {
        WaitIsCall(d, Abs(), offset, data, false);
      }
    }

    method WriteNext(offset: nat, data: seq<byte>)
      requires WriteOk(offset, data) && state == WriteProgram
      modifies this, chip
      ensures Valid() && base == offset && total == |data| && state == WriteBusy
      ensures |data| % WORD == 0 ==> WriteCall(old(Abs()), Abs(), offset, data, false)
    {
      hide WriteCall, Polls, Behind, ReadErased;
      chip.SetPg(true);
      if length >= WORD {
        WriteWord(offset, data);
      } else {
        WriteTail(data);
      }
    }

    /** The command of WRITE_PROGRAM for a whole word. */
    method WriteWord(offset: nat, data: seq<byte>)
      requires chip.Valid() && bank0End == chip.bank0End && base + total <= chip.size && WritingValid() && chip.pg && chip.busy == 0 && state == WriteProgram
      requires length >= WORD && offset == base && |data| == total
      modifies this, chip
      ensures Valid() && base == offset && total == |data| && state == WriteBusy
      ensures WriteCall(old(Abs()), Abs(), offset, data, false)
    {
      hide Polls, WriteCall, WordProgrammed, Behind, ReadErased, ErasingValid, FlashChip.Valid;
      chip.Sizes();
      ghost var d, i := Abs(), index;
      OneUnitLess(length, WORD, chip.patience);
      NextWord(index);
      chip.Program(address, data[index..index + WORD]);
      chip.Sizes();
      index := index + WORD;
      address := address + WORD;
      length := length - WORD;
      state := WriteBusy;
      WordIsCall(d, Abs(), offset, data, i);
    }

    /** And for less than a word: it is written again and again, with whatever lies behind the data. */
    method WriteTail(data: seq<byte>)
      requires chip.Valid() && bank0End == chip.bank0End && base + total <= chip.size && WritingValid() && chip.pg && chip.busy == 0 && state == WriteProgram
      requires 0 < length < WORD && |data| == total
      modifies this`state, chip
      ensures Valid() && state == WriteBusy
    {
      hide WordProgrammed, Behind, ReadErased;
      ghost var blank := chip.blank;
      TailFits(base, index, length, chip.size);
      var beyond := AnyBytes(WORD - length);
      ghost var was := chip.flash;
      chip.Program(address, data[index..] + beyond);
      StillBehind(was, blank, chip.flash, chip.blank, address, data[index..] + beyond, base, index);
      state := WriteBusy;
    }
  }

  // ---- h7xx/flashcode.cpp ----

  /** The same machine with one page size, save that an operation that finds the other one under way does not abandon
      it but runs into a failed assertion, for which None stands. */
  class H7Device {
    const machine: FmcDevice

    ghost predicate Valid()
      reads this, machine, machine.chip
    {
      machine.Valid() && machine.bank0End == 0 && (machine.state == Ready ==> machine.activity == Resting)
    }

    constructor (chip: FlashChip)
      requires chip.Valid() && !chip.per && !chip.pg && chip.bank0End == 0
      ensures Valid() && machine.chip == chip && machine.activity == Resting
    {
      machine := new FmcDevice(chip, 0);
    }

    /** An erase is a call of the assumed device if and only if no write is under way. */
    method Erase(offset: nat, n: nat) returns (done: Option<bool>)
      requires Valid() && machine.EraseOk(offset, n)
      modifies machine, machine.chip
      ensures Valid() && (done.Some? <==> old(machine.activity) != Writing)
      ensures done.Some? ==> EraseCall(old(machine.Abs()), machine.Abs(), offset, n, done.value)
      ensures done.None? ==> machine.Abs() == old(machine.Abs())
    {
      if machine.state == WriteBusy || machine.state == WriteProgram {
        return None;
      }
      var ok, result := machine.Erase(offset, n);
      done := Some(ok);
    }

    /** And a write if and only if no erase is. */
    method Write(offset: nat, data: seq<byte>) returns (done: Option<bool>)
      requires Valid() && machine.WriteOk(offset, data)
      modifies machine, machine.chip
      ensures Valid() && (done.Some? <==> old(machine.activity) != Erasing)
      ensures done.Some? && |data| % WORD == 0 ==> WriteCall(old(machine.Abs()), machine.Abs(), offset, data, done.value)
      ensures done.Some? && |data| % WORD != 0 ==> !done.value
      ensures done.None? ==> machine.Abs() == old(machine.Abs())
    {
      if machine.state == EraseBusy || machine.state == EraseProgram {
        return None;
      }
      var ok, result := machine.Write(offset, data);
      done := Some(ok);
    }
  }

  lemma StillBehind(was: seq<byte>, blank: set<nat>, now: seq<byte>, blank': set<nat>, address: nat, word: seq<byte>, base: nat, index: nat)
    requires |word| == WORD && address + WORD <= |was| && WordProgrammed(was, blank, now, blank', address, word)
    requires Behind(base, index, blank)
    ensures Behind(base, index, blank')
  {
  }

  /** A call that only waits, or finds that all is written. */
  lemma WaitIsCall(d: Device, d': Device, offset: nat, data: seq<byte>, done: bool)
    requires d'.content == d.content && d'.blank == d.blank && offset + |data| <= |d.content|
    requires if done then d'.activity == Resting && Behind(offset, |data|, d.blank)
             else d'.activity == Writing && (d.activity == Writing ==> d'.left < d.left)
    ensures WriteCall(d, d', offset, data, done)
  {
    NothingWritten(d, d', offset, data);
  }

  /** The last word of a length that is no multiple of four still lies inside the flash. */
  lemma TailFits(base: nat, index: nat, length: nat, size: nat)
    requires base % WORD == 0 && index % WORD == 0 && 0 < length < WORD && size % FLASH_SECTOR_SIZE == 0
    requires base + index + length <= size
    ensures base + index + WORD <= size
  {
    assert size == WORD * (1024 * (size / FLASH_SECTOR_SIZE));
  }

  lemma NextWord(index: nat)
    ensures index % WORD == 0 ==> (index + WORD) % WORD == 0
  {
  }

  lemma SectorsArePages(n: nat)
    requires n % FLASH_SECTOR_SIZE == 0
    ensures n % BANK0_PAGE == 0 && n % BANK1_PAGE == 0
  {
  }

  lemma WholeUnits(length: nat, unit: nat)
    requires unit > 0 && length > 0 && length % unit == 0
    ensures length >= unit
  {
  }

  /** Programming a word of the data is a call of the assumed device, and the part behind the index grows by the word. */
  lemma WordIsCall(d: Device, d': Device, offset: nat, data: seq<byte>, i: nat)
    requires i + WORD <= |data| && offset + |data| <= |d.content| && Behind(offset, i, d.blank)
    requires WordProgrammed(d.content, d.blank, d'.content, d'.blank, offset + i, data[i..i + WORD])
    requires d.activity == d'.activity == Writing && d'.left < d.left
    ensures WriteCall(d, d', offset, data, false) && Behind(offset, i + WORD, d'.blank)
  {
    forall a | offset <= a < offset + |data| ensures Untouched(d, d', a) || Programmed(d, d', a, data[a - offset]) {
      if offset + i <= a < offset + i + WORD {
        assert data[i..i + WORD][a - offset - i] == data[a - offset];
      }
    }
  }
}
