/** The write-behind store as a transition system: image, flush state, device and clock. Any operation may come
    between any two polls of `Flash`. */
module ConfigRuns {
  import opened Integers
  import opened Memory
  import opened ConfigImage
  import opened ConfigBoot

  datatype State = IDLE | CHANGED | CHANGED_WAITING | ERASING | ERASED | ERASED_WAITING | WRITING

  const DEBOUNCE := 100

  // ---- the device ----

  datatype Activity = Resting | Erasing | Writing

  /** `blank` holds the addresses that are ready to be programmed once; `left` bounds the further calls that the
      running operation needs before the one that is done. */
  datatype Device = Device(content: seq<byte>, blank: set<nat>, activity: Activity, left: nat)

  /** The addresses from `lo` on, `n` of them. */
  function Range(lo: nat, n: nat): (s: set<nat>)
    ensures forall a :: a in s <==> lo <= a < lo + n
  {
    if n == 0 then {} else Range(lo, n - 1) + {lo + n - 1}
  }

  /** A call that runs `a`: the first call of an operation sets a bound for the calls that follow, and every further
      one that is not done lowers it. */
  ghost predicate Works(d: Device, d': Device, a: Activity, done: bool) {
    && (done ==> d'.activity == Resting)
    && (!done ==> d'.activity == a && (d.activity == a ==> d'.left < d.left))
  }

  ghost predicate SameElsewhere(d: Device, d': Device, start: nat, n: nat) {
    |d'.content| == |d.content| && forall a :: 0 <= a < |d.content| && !(start <= a < start + n) ==> d'.content[a] == d.content[a]
  }

  /** The device is no smaller, and what lies below `start` is as it was. */
  ghost predicate KeptBelow(d: Device, d': Device, start: nat) {
    |d.content| <= |d'.content| && forall a :: 0 <= a < |d.content| && a < start ==> d'.content[a] == d.content[a]
  }

  /** Erase: the region, and what lies behind it, holds anything until the call that is done, which leaves the region
      blank: not any particular value, but ready to be programmed. */
  ghost predicate EraseCall(d: Device, d': Device, start: nat, n: nat, done: bool) {
    && Works(d, d', Erasing, done)
    && KeptBelow(d, d', start)
    && (done ==> forall a :: start <= a < start + n ==> a in d'.blank)
  }

  /** Write: each call programs some addresses and leaves the others alone. Programming an address that is blank,
      or already holds the byte offered, leaves that byte; anything may come of programming any other. When done,
      nothing in the region is left blank. */
  ghost predicate WriteCall(d: Device, d': Device, start: nat, data: seq<byte>, done: bool) {
    && Works(d, d', Writing, done)
    && SameElsewhere(d, d', start, |data|)
    && start + |data| <= |d.content|
    && (forall a :: start <= a < start + |data| ==> Untouched(d, d', a) || Programmed(d, d', a, data[a - start]))
    && (done ==> forall a :: start <= a < start + |data| ==> a !in d'.blank)
  }

  ghost predicate Untouched(d: Device, d': Device, a: nat)
    requires a < |d.content| == |d'.content|
  {
    d'.content[a] == d.content[a] && (a in d'.blank <==> a in d.blank)
  }

  ghost predicate Programmed(d: Device, d': Device, a: nat, b: byte)
    requires a < |d.content| == |d'.content|
  {
    a !in d'.blank && (a in d.blank || d.content[a] == b ==> d'.content[a] == b)
  }

  // ---- the system ----

  datatype System = System(image: Image, state: State, wait: nat, start: nat, device: Device, now: nat)

  ghost predicate Fits(s: System) {
    s.start + SIZE <= |s.device.content|
  }

  /** What a restart would read from the device. */
  ghost function Region(s: System): Image
    requires Fits(s)
  {
    s.device.content[s.start..s.start + SIZE]
  }

  /** The millisecond counter wraps at 2^32; differences are taken modulo 2^32. */
  ghost function Elapsed(now: nat, wait: nat): nat {
    (now % WORD_LIMIT - wait) % WORD_LIMIT
  }

  datatype Event =
    | Update(store: nat, off: nat, data: seq<byte>, setList: nat, offSet: nat)
    | Copy(from: nat, buffer: seq<byte>, at: nat, doUpdate: bool)
    | ResetSetList(reset: nat)
    | SetEnvUtcOffset(hours: int, minutes: nat)
    | Delay
    | Flash

  /** An operation on the image: `dirty` requests a flush. */
  ghost predicate ImageStep(s: System, s': System, m: Image, dirty: bool) {
    s' == s.(image := m, state := if dirty then CHANGED else s.state, now := s'.now)
  }

  ghost predicate UpdateDirty(m: Image, store: nat, off: nat, data: seq<byte>)
    requires store < LAST && off + |data| <= StoreSize(store)
  {
    StoreInside(store);
    Splice(m, Offset(store) + off, data) != m
  }

  ghost predicate CopyDirty(m: Image, store: nat, buffer: seq<byte>, off: nat, doUpdate: bool)
    requires CopyOk(store, buffer, off)
  {
    doUpdate && AllZero(Slice(m, store)[off..off + |buffer|]) && UpdateDirty(m, store, 0, buffer)
  }

  /** One poll. The clock is read when the call ends; erase and write are called when it starts. */
  ghost predicate FlashStep(s: System, s': System, more: bool) {
    && (more <==> s'.state != IDLE)
    && match s.state
       case IDLE => s' == s.(now := s'.now)
       case CHANGED => s' == s.(state := CHANGED_WAITING, wait := s'.now % WORD_LIMIT, now := s'.now)
       case CHANGED_WAITING =>
         s' == s.(state := if Elapsed(s'.now, s.wait) < DEBOUNCE then CHANGED_WAITING else ERASING, now := s'.now)
       case ERASING =>
         || (EraseCall(s.device, s'.device, s.start, SIZE, true)
             && s' == s.(state := ERASED_WAITING, wait := s'.now % WORD_LIMIT, device := s'.device, now := s'.now))
         || (EraseCall(s.device, s'.device, s.start, SIZE, false) && s' == s.(device := s'.device, now := s'.now))
       case ERASED_WAITING =>
         s' == s.(state := if Elapsed(s'.now, s.wait) < DEBOUNCE then ERASED_WAITING else ERASED, now := s'.now)
       case ERASED => s' == s.(state := WRITING, now := s'.now)
       case WRITING =>
         || (WriteCall(s.device, s'.device, s.start, s.image[..USED], true)
             && s' == s.(state := IDLE, device := s'.device, now := s'.now))
         || (WriteCall(s.device, s'.device, s.start, s.image[..USED], false) && s' == s.(device := s'.device, now := s'.now))
  }

  ghost predicate Next(s: System, e: Event, s': System) {
    && s'.now >= s.now
    && match e
       case Update(store, off, data, setList, offSet) =>
         && UpdateOk(store, off, data, setList, offSet)
         && ImageStep(s, s', UpdateSpec(s.image, store, off, data, setList, offSet), UpdateDirty(s.image, store, off, data))
       case Copy(store, buffer, off, doUpdate) =>
         && CopyOk(store, buffer, off)
         && ImageStep(s, s', CopySpec(s.image, store, buffer, off, doUpdate).0, CopyDirty(s.image, store, buffer, off, doUpdate))
       case ResetSetList(store) =>
         store < LAST && ImageStep(s, s', ResetSpec(s.image, store), true)
       case SetEnvUtcOffset(hours, minutes) =>
         var (ok, offset) := UtcValidate(hours, minutes);
         var dirty := ok && UtcOffset(s.image) != offset;
         ImageStep(s, s', if dirty then WithUtcOffset(s.image, offset) else s.image, dirty)
       case Delay =>
         ImageStep(s, s', s.image, s.state != IDLE)
       case Flash =>
         exists more :: FlashStep(s, s', more)
  }

  /** After construction with a device present. */
  ghost predicate Initial(s: System) {
    && Fits(s)
    && s.image == Boot(Region(s)).0
    && s.state == if Boot(Region(s)).1 then CHANGED else IDLE
  }

  ghost predicate Step(s: System, s': System) {
    exists e :: Next(s, e, s')
  }

  ghost predicate Run(t: seq<System>) {
    && |t| > 0 && Initial(t[0])
    && forall n :: 0 < n < |t| ==> Step(t[n - 1], t[n])
  }

  /** A step may follow a run whose last state differs in the clock only, which others may have read since. */
  lemma RunGoesOn(t: seq<System>, s: System, e: Event, s': System)
    requires Run(t) && t[|t| - 1].(now := s.now) == s && t[|t| - 1].now <= s.now && Next(s, e, s')
    ensures Run(t + [s'])
  {
    hide Initial;
    var last := t[|t| - 1];
    ClockApart(last, s, e, s');
    assert Step(last, s');
  }

  lemma ClockApart(last: System, s: System, e: Event, s': System)
    requires last.(now := s.now) == s && last.now <= s.now && Next(s, e, s')
    ensures Next(last, e, s')
  {
    hide UpdateSpec, CopySpec, ResetSpec, UpdateDirty, CopyDirty, EraseCall, WriteCall, WithUtcOffset, UtcValidate;
    if e.Flash? {
      var more :| FlashStep(s, s', more);
      assert FlashStep(last, s', more);
    }
  }

  lemma RunStarts(s: System)
    requires Initial(s)
    ensures Run([s])
  {
  }

  // ---- no lost update ----

  ghost predicate Inv(s: System) {
    && Fits(s) && Signed(s.image)
    && match s.state
       case IDLE => Signed(Region(s)) && SameUsed(Fixup(Region(s)), Fixup(s.image))
       case ERASED_WAITING => forall a :: s.start <= a < s.start + USED ==> a in s.device.blank
       case ERASED => forall a :: s.start <= a < s.start + USED ==> a in s.device.blank
       case WRITING => forall a :: s.start <= a < s.start + USED ==>
                         a in s.device.blank || s.device.content[a] == s.image[a - s.start]
       case _ => true
  }

  lemma BootSigns(raw: Image)
    ensures Signed(Boot(raw).0)
  {
    if Signed(raw) {
      FixupSigned(raw);
    } else {
      var erased: Image := SIGNATURE + raw[4..SIGNATURE_SIZE] + seq(SIZE - SIGNATURE_SIZE, _ => 0);
      assert erased[..4] == SIGNATURE;
      FixupSigned(erased);
    }
  }

  lemma InitialInv(s: System)
    requires Initial(s)
    ensures Inv(s)
  {
    hide FixStores, ClearOnes;
    BootSigns(Region(s));
    FixupIdempotent(Region(s));
  }

  /** Every operation keeps the signature, and changes the image only together with a request to flush. */
  lemma ImageOperations(s: System, e: Event, s': System)
    requires Next(s, e, s') && !e.Flash?
    ensures Signed(s.image) ==> Signed(s'.image)
    ensures s'.state == CHANGED || (s'.image == s.image && s'.state == s.state)
    ensures s'.device == s.device && s'.start == s.start && s'.wait == s.wait
  {
    hide StoreSize, Offset, OrByte, ByteOf, Slice;
    match e
    case Update(store, off, data, setList, offSet) =>
      StoreInside(store);
    case Copy(store, buffer, off, doUpdate) =>
      StoreInside(store);
      if CopyDirty(s.image, store, buffer, off, doUpdate) {
        assert s'.image == UpdateSpec(s.image, store, 0, buffer, 0, 0);
      }
    case ResetSetList(store) =>
      StoreInside(store);
    case _ =>
  }

  lemma FlashKeepsInv(s: System, s': System, more: bool)
    requires Inv(s) && FlashStep(s, s', more)
    ensures Inv(s')
  {
    hide Fixup, Boot;
    if s.state == WRITING && s'.state == IDLE {
      Written(s, s');
    } else if s.state == WRITING {
      WriteGoesOn(s, s', more);
    }
  }

  lemma WriteGoesOn(s: System, s': System, more: bool)
    requires Inv(s) && s.state == WRITING && FlashStep(s, s', more)
    ensures forall a :: s'.start <= a < s'.start + USED ==>
              a in s'.device.blank || s'.device.content[a] == s'.image[a - s'.start]
  {
    forall a | s.start <= a < s.start + USED
      ensures a in s'.device.blank || s'.device.content[a] == s.image[a - s.start]
    {
      var b := s.image[..USED][a - s.start];
      assert b == s.image[a - s.start];
      assert Untouched(s.device, s'.device, a) || Programmed(s.device, s'.device, a, b);
    }
  }

  /** A completed write leaves the used part of the image on the device. */
  lemma Written(s: System, s': System)
    requires Inv(s) && s.state == WRITING && FlashStep(s, s', false)
    ensures Fits(s') && SameUsed(Region(s'), s'.image) && Signed(Region(s'))
    ensures SameUsed(Fixup(Region(s')), Fixup(s'.image))
  {
    hide Fixup, Boot;
    var r, m := Region(s'), s'.image;
    forall k | 0 <= k < USED ensures r[k] == m[k] {
      WriteGoesOn(s, s', false);
      assert s.start <= s.start + k < s.start + USED;
    }
    assert r[..4] == m[..4];
    FixupLocal(r, m);
  }

  lemma StepKeepsInv(s: System, e: Event, s': System)
    requires Inv(s) && Next(s, e, s')
    ensures Inv(s')
  {
    hide Fixup, Boot, UpdateSpec, CopySpec, ResetSpec, FlashStep, SameUsed;
    if e.Flash? {
      var more :| FlashStep(s, s', more);
      FlashKeepsInv(s, s', more);
    } else {
      ImageOperations(s, e, s');
    }
  }

  lemma {:induction false} RunInv(t: seq<System>, n: nat)
    requires Run(t) && n < |t|
    ensures Inv(t[n])
  {
    hide Inv, Next, Initial;
    if n == 0 {
      InitialInv(t[0]);
    } else {
      RunInv(t, n - 1);
      assert Step(t[n - 1], t[n]);
      var e :| Next(t[n - 1], e, t[n]);
      StepKeepsInv(t[n - 1], e, t[n]);
    }
  }

  /** No lost update: whenever a run is idle, a restart from the device gives back the image in memory, both
      after the loader's fix-ups, on the whole used part. */
  lemma NoLostUpdate(t: seq<System>, n: nat)
    requires Run(t) && n < |t| && t[n].state == IDLE
    ensures Fits(t[n])
    ensures Boot(Region(t[n])) == (Fixup(Region(t[n])), false)
    ensures SameUsed(Boot(Region(t[n])).0, Fixup(t[n].image))
  {
    RunInv(t, n);
  }

  // ---- debouncing and write order ----

  /** Last point up to `n` at which the run is in state `q`, or -1. */
  ghost function LastIn(t: seq<System>, n: nat, q: State): (k: int)
    requires n < |t|
    ensures -1 <= k <= n
    ensures k >= 0 ==> t[k].state == q
    ensures forall i :: k < i <= n ==> t[i].state != q
  {
    if t[n].state == q then n else if n == 0 then -1 else LastIn(t, n - 1, q)
  }

  /** From `c` to `n` the image stays the same. */
  ghost predicate Quiet(t: seq<System>, c: nat, n: nat)
    requires c <= n < |t|
  {
    forall k :: c <= k <= n ==> t[k].image == t[n].image
  }

  /** `c` is the last visit to CHANGED before `n`; the poll after it left CHANGED. */
  ghost predicate Settled(t: seq<System>, c: int, n: nat)
    requires n < |t|
  {
    && 0 <= c < n && t[c].state == CHANGED && (forall k :: c < k <= n ==> t[k].state != CHANGED)
    && Quiet(t, c, n)
  }

  /** Between `c` and `n` an erase was called 100 ms or more after `c` and has completed by `e + 1`. */
  ghost predicate Erased(t: seq<System>, c: int, e: int, n: nat)
    requires n < |t|
  {
    && Settled(t, c, n)
    && c < e < n && t[e].state == ERASING && t[e + 1].state == ERASED_WAITING
    && t[e].now >= t[c + 1].now + DEBOUNCE
  }

  ghost predicate Timed(t: seq<System>, n: nat)
    requires n < |t|
  {
    var c, e, s := LastIn(t, n, CHANGED), LastIn(t, n, ERASING), t[n];
    match s.state
    case IDLE => true
    case CHANGED => true
    case CHANGED_WAITING => Settled(t, c, n) && s.wait == t[c + 1].now % WORD_LIMIT && t[c + 1].now <= s.now
    case ERASING => Settled(t, c, n) && s.now >= t[c + 1].now + DEBOUNCE
    case ERASED_WAITING => Erased(t, c, e, n) && s.wait == t[e + 1].now % WORD_LIMIT && t[e + 1].now <= s.now
    case ERASED => Erased(t, c, e, n) && s.now >= t[e + 1].now + DEBOUNCE
    case WRITING => Erased(t, c, e, n) && s.now >= t[e + 1].now + DEBOUNCE
  }

  /** A wrapped difference never exceeds the real one. */
  lemma ElapsedIsReal(now: nat, was: nat)
    requires was <= now
    ensures Elapsed(now, was % WORD_LIMIT) <= now - was
  {
  }

  lemma RemainderIs(a: int, q: int, r: nat)
    requires a == WORD_LIMIT * q + r && r < WORD_LIMIT
    ensures a % WORD_LIMIT == r
  {
  }

  /** While no more than the counter's range less 100 ms passes between two reads, a wait that is not over yet
      only comes closer to its end. */
  lemma ElapsedGrows(t: nat, u: nat, wait: nat)
    requires t <= u <= t + (WORD_LIMIT - DEBOUNCE) && Elapsed(t, wait) < DEBOUNCE
    ensures Elapsed(u, wait) == Elapsed(t, wait) + (u - t)
  {
    var e := Elapsed(t, wait);
    var q := (t % WORD_LIMIT - wait) / WORD_LIMIT;
    assert u % WORD_LIMIT == u - WORD_LIMIT * (u / WORD_LIMIT) && t % WORD_LIMIT == t - WORD_LIMIT * (t / WORD_LIMIT);
    RemainderIs(u % WORD_LIMIT - wait, q + t / WORD_LIMIT - u / WORD_LIMIT, e + (u - t));
  }

  /** One poll keeps the timing facts. */
  lemma FlashTimed(t: seq<System>, n: nat, more: bool)
    requires n + 1 < |t| && Timed(t, n) && FlashStep(t[n], t[n + 1], more) && t[n].now <= t[n + 1].now
    ensures Timed(t, n + 1)
  {
    hide EraseCall, WriteCall;
    var c, e := LastIn(t, n, CHANGED), LastIn(t, n, ERASING);
    match t[n].state
    case CHANGED_WAITING => ElapsedIsReal(t[n + 1].now, t[c + 1].now);
    case ERASED_WAITING => ElapsedIsReal(t[n + 1].now, t[e + 1].now);
    case _ =>
  }

  /** So does any step that asks for a flush, or leaves image, state and wait alone. */
  lemma OperationTimed(t: seq<System>, n: nat)
    requires n + 1 < |t| && Timed(t, n) && t[n].now <= t[n + 1].now && t[n + 1].wait == t[n].wait
    requires t[n + 1].state == CHANGED || (t[n + 1].image == t[n].image && t[n + 1].state == t[n].state)
    ensures Timed(t, n + 1)
  {
  }

  lemma StartTimed(s: System)
    requires Initial(s)
    ensures s.state == CHANGED || s.state == IDLE
  {
  }

  lemma StepTimed(t: seq<System>, n: nat)
    requires n + 1 < |t| && Timed(t, n) && Step(t[n], t[n + 1])
    ensures Timed(t, n + 1) && t[n].now <= t[n + 1].now
  {
    hide Timed, FlashStep, ImageStep;
    var ev :| Next(t[n], ev, t[n + 1]);
    if ev.Flash? {
      var more :| FlashStep(t[n], t[n + 1], more);
      FlashTimed(t, n, more);
    } else {
      ImageOperations(t[n], ev, t[n + 1]);
      OperationTimed(t, n);
    }
  }

  lemma {:induction false} RunTimed(t: seq<System>, n: nat)
    requires Run(t) && n < |t|
    ensures Timed(t, n)
    ensures forall k :: 0 <= k <= n ==> t[k].now <= t[n].now
  {
    if n == 0 {
      hide Initial;
      StartTimed(t[0]);
    } else {
      hide Timed, Initial, Step;
      RunTimed(t, n - 1);
      StepTimed(t, n - 1);
    }
  }

  /** Debounce before erasing: when erase is called, the last request to flush, and so the last change of the
      image, is 100 ms of real time or more in the past, although the counter wraps. */
  lemma EraseIsDebounced(t: seq<System>, n: nat, k: nat)
    requires Run(t) && k <= n < |t| && t[n].state == ERASING
    requires t[k].state == CHANGED || (k > 0 && t[k].image != t[k - 1].image)
    ensures t[n].now >= t[k].now + 100
  {
    hide Initial, FlashStep, Next;
    RunTimed(t, n);
    var c := LastIn(t, n, CHANGED);
    if t[k].state != CHANGED {
      assert Step(t[k - 1], t[k]);
      var ev :| Next(t[k - 1], ev, t[k]);
      if !ev.Flash? {
        ImageOperations(t[k - 1], ev, t[k]);
      } else {
        FlashKeepsImage(t[k - 1], t[k]);
      }
    }
    RunTimed(t, c + 1);
    assert t[k].now <= t[c + 1].now;
  }

  lemma FlashKeepsImage(s: System, s': System)
    requires Next(s, Flash, s')
    ensures s'.image == s.image
  {
  }

  /** Delay puts a pending flush off: no erase is called within the next 100 ms. Without a pending flush it does
      nothing. */
  lemma DelayPutsOff(t: seq<System>, k: nat, n: nat)
    requires Run(t) && k + 1 <= n < |t| && Next(t[k], Delay, t[k + 1])
    ensures t[k].state != IDLE && t[n].state == ERASING ==> t[n].now >= t[k + 1].now + 100
    ensures t[k].state == IDLE ==> t[k + 1] == t[k].(now := t[k + 1].now)
  {
    if t[k].state != IDLE && t[n].state == ERASING {
      hide Run;
      EraseIsDebounced(t, n, k + 1);
    }
  }

  /** An update asks for a flush exactly when some byte it writes was another one; otherwise it does nothing at all. */
  lemma UpdateAsks(s: System, s': System, store: nat, off: nat, data: seq<byte>, setList: nat, offSet: nat)
    requires Next(s, Update(store, off, data, setList, offSet), s')
    ensures store < LAST && off + |data| <= StoreSize(store)
    ensures if Slice(s.image, store)[off..off + |data|] == data then s' == s.(now := s'.now) else s'.state == CHANGED
  {
    hide StoreSize, Offset, OrWord, Splice;
    StoreInside(store);
    PartOfSlice(s.image, Offset(store), Offset(store) + StoreSize(store), off, off + |data|);
    SpliceChanges(s.image, Offset(store) + off, data);
  }

  /** Copy asks for one exactly when it seeds an empty slice with something that is not there yet; a reset always; and
      a new time zone when it is accepted and another one than before. */
  lemma OthersAsk(s: System, s': System, store: nat, buffer: seq<byte>, off: nat, doUpdate: bool, hours: int, minutes: nat)
    ensures Next(s, Copy(store, buffer, off, doUpdate), s') ==>
              && CopyOk(store, buffer, off)
              && if doUpdate && AllZero(Slice(s.image, store)[off..off + |buffer|]) && Slice(s.image, store)[..|buffer|] != buffer
                 then s'.state == CHANGED else s' == s.(now := s'.now)
    ensures Next(s, ResetSetList(store), s') ==> s'.state == CHANGED
    ensures Next(s, SetEnvUtcOffset(hours, minutes), s') ==>
              var (ok, offset) := UtcValidate(hours, minutes);
              if ok && UtcOffset(s.image) != offset then s'.state == CHANGED && UtcOffset(s'.image) == offset
              else s' == s.(now := s'.now)
  {
    hide StoreSize, Offset, OrWord, Splice, UtcValidate, ResetSpec;
    if Next(s, Copy(store, buffer, off, doUpdate), s') {
      StoreInside(store);
      PartOfSlice(s.image, Offset(store), Offset(store) + StoreSize(store), 0, |buffer|);
      SpliceChanges(s.image, Offset(store) + 0, buffer);
      assert Slice(s.image, store)[0..|buffer|] == Slice(s.image, store)[..|buffer|];
    }
    var (ok, offset) := UtcValidate(hours, minutes);
    if ok {
      UtcOffsetStored(s.image, offset);
    }
  }

  /** Write order: when write is called there was a last request `c` and after it a completed erase `e`; the
      image has not changed since `c`; the erase was called 100 ms or more after `c`, and the write comes 100 ms
      or more after the erase completed. */
  lemma WriteFollowsErase(t: seq<System>, n: nat)
    requires Run(t) && n < |t| && t[n].state == WRITING
    ensures exists c, e :: Erased(t, c, e, n) && t[n].now >= t[e + 1].now + 100
  {
    hide Initial, FlashStep, Next;
    RunTimed(t, n);
    var c, e := LastIn(t, n, CHANGED), LastIn(t, n, ERASING);
    assert Erased(t, c, e, n) && t[n].now >= t[e + 1].now + DEBOUNCE;
  }

  // ---- erasing while a write is under way ----

  /** At `k` a write is interrupted by a request to flush, and up to `n` the device is not called again. */
  ghost predicate Interrupted(t: seq<System>, k: nat, n: nat)
    requires n < |t|
  {
    && k < n && t[k].state == WRITING && t[k].device.activity == Writing && t[k + 1].state == CHANGED
    && forall i :: k <= i <= n ==> t[i].device == t[k].device
  }

  lemma {:induction false} WriteLeftOpen(t: seq<System>, n: nat) returns (k: nat)
    requires Run(t) && n < |t| && t[0].device.activity != Writing
    requires t[n].device.activity == Writing && t[n].state != WRITING
    ensures Interrupted(t, k, n)
  {
    hide Initial, Next, Interrupted;
    assert Step(t[n - 1], t[n]);
    var e :| Next(t[n - 1], e, t[n]);
    OnlyCallsChangeDevice(t[n - 1], e, t[n]);
    if t[n - 1].state == WRITING {
      k := n - 1;
      JustInterrupted(t, n);
    } else {
      k := WriteLeftOpen(t, n - 1);
      StillInterrupted(t, k, n);
    }
  }

  lemma JustInterrupted(t: seq<System>, n: nat)
    requires 0 < n < |t| && t[n - 1].state == WRITING && t[n].state == CHANGED
    requires t[n].device == t[n - 1].device && t[n].device.activity == Writing
    ensures Interrupted(t, n - 1, n)
  {
  }

  lemma StillInterrupted(t: seq<System>, k: nat, n: nat)
    requires 0 < n < |t| && Interrupted(t, k, n - 1) && t[n].device == t[n - 1].device
    ensures Interrupted(t, k, n)
  {
  }

  /** The device changes by an erase or a write only, and a write that is over leaves it at rest. */
  lemma OnlyCallsChangeDevice(s: System, e: Event, s': System)
    requires Next(s, e, s') && s'.device.activity == Writing && s'.state != WRITING
    ensures s'.device == s.device && (s.state == WRITING ==> s'.state == CHANGED)
  {
    if !e.Flash? {
      ImageOperations(s, e, s');
    }
  }

  /** Erase is called while a write is under way if and only if a request to flush interrupted that write and the
      device has not been called since. */
  lemma EraseFindsWrite(t: seq<System>, n: nat)
    requires Run(t) && n < |t| && t[0].device.activity != Writing && t[n].state == ERASING
    ensures t[n].device.activity == Writing <==> exists k: nat :: Interrupted(t, k, n)
  {
    hide Run;
    if t[n].device.activity == Writing {
      var k := WriteLeftOpen(t, n);
    }
  }

  /** That happens: whenever a write is under way, a set-list reset and two polls lead there. */
  lemma EraseMeetsWrite(s: System) returns (s1: System, s2: System, s3: System)
    requires s.state == WRITING && s.device.activity == Writing
    ensures Next(s, ResetSetList(0), s1) && Next(s1, Flash, s2) && Next(s2, Flash, s3)
    ensures s3.state == ERASING && s3.device == s.device
  {
    hide ResetSpec;
    s1 := s.(image := ResetSpec(s.image, 0), state := CHANGED);
    s2 := s1.(state := CHANGED_WAITING, wait := s1.now % WORD_LIMIT);
    s3 := s2.(state := ERASING, now := s2.now + DEBOUNCE);
    ElapsedGrows(s2.now, s3.now, s2.wait);
    assert FlashStep(s1, s2, true) && FlashStep(s2, s3, true);
  }
}
