// The CYW43 backplane (drivers/cyw43_rp2350.c): three registers of the chip choose
// a 32 KB window, the host caches what it wrote to them, and a bulk write goes out
// in bursts through the window. A register write or a burst may fail, and may then
// have reached the chip or not.
module Backplane {
  import opened Arith
  import opened Common

  type Address = v: int | 0 <= v < 0x1_0000_0000

  const WINDOW_SIZE: nat := 0x8000
  const MAX_TRANSFER: nat := 64
  const INVALID: Address := 0xFFFF_FFFF

  function High(a: Address): Byte { a / 0x100_0000 }

  function Mid(a: Address): Byte { (a / 0x1_0000) % 256 }

  function Low(a: Address): Byte { (a / 0x100) % 256 }

  // The window an address lies in.
  function Base(a: Address): Address { a - a % WINDOW_SIZE }

  // The window the chip's registers choose.
  datatype Regs = Regs(high: Byte, mid: Byte, low: Byte) {
    function Window(): Address { 0x100_0000 * high + 0x1_0000 * mid + 0x100 * low }
  }

  lemma BaseBytes(a: Address)
    ensures Base(a) == 0x100_0000 * High(Base(a)) + 0x1_0000 * Mid(Base(a)) + 0x100 * Low(Base(a))
    ensures Low(Base(a)) != 0xFF && Base(a) != INVALID
    ensures Base(a) == Base(Base(a)) && a == Base(a) + a % WINDOW_SIZE
  {
    var q := a / WINDOW_SIZE;
    WindowParts(q, Base(a));
  }

  // The bytes of the address of window q.
  lemma WindowParts(q: nat, b: Address)
    requires b == WINDOW_SIZE * q
    ensures High(b) == q / 512 && Mid(b) == q / 2 % 256 && Low(b) == 128 * (q % 2) && Base(b) == b
    ensures b == 0x100_0000 * (q / 512) + 0x1_0000 * (q / 2 % 256) + 0x100 * (128 * (q % 2))
  {
    QuotientIs(b, 0x100_0000, q / 512, WINDOW_SIZE * (q % 512));
    QuotientIs(b, 0x1_0000, q / 2, WINDOW_SIZE * (q % 2));
    QuotientIs(b, 0x100, 128 * q, 0);
    QuotientIs(128 * q, 256, q / 2, 128 * (q % 2));
    QuotientIs(b, WINDOW_SIZE, q, 0);
    QuotientIs(q / 2, 256, q / 512, q / 2 % 256);
  }

  lemma SameWindow(r: Regs, a: Address)
    ensures r.Window() == Base(a) <==> r == Regs(High(Base(a)), Mid(Base(a)), Low(Base(a)))
  {
    hide Base;
    BaseBytes(a);
    WindowBytes(r);
  }

  lemma WindowBytes(r: Regs)
    ensures High(r.Window()) == r.high && Mid(r.Window()) == r.mid && Low(r.Window()) == r.low
  {
    assert r.Window() / 0x1_0000 == 256 * r.high + r.mid;
    assert r.Window() / 0x100 == 65536 * r.high + 256 * r.mid + r.low;
  }

  // ---------------------------------------------- setting the window, as a value

  // The registers after bp_set_window() has written each byte that is not cached.
  function Written(r: Regs, cache: Address, a: Address): Regs {
    Regs(if High(Base(a)) != High(cache) then High(Base(a)) else r.high,
         if Mid(Base(a)) != Mid(cache) then Mid(Base(a)) else r.mid,
         if Low(Base(a)) != Low(cache) then Low(Base(a)) else r.low)
  }

  // The cache says what the registers hold, or the registers agree with address a
  // wherever the cache would leave them alone.
  predicate Trusted(r: Regs, cache: Address, a: Address) {
    && (High(Base(a)) == High(cache) ==> r.high == High(cache))
    && (Mid(Base(a)) == Mid(cache) ==> r.mid == Mid(cache))
    && (Low(Base(a)) == Low(cache) ==> r.low == Low(cache))
  }

  // When the writes succeed, the chip's window is the one cached exactly then.
  lemma WindowExact(r: Regs, cache: Address, a: Address)
    ensures Written(r, cache, a).Window() == Base(a) <==> Trusted(r, cache, a)
  {
    hide High, Mid, Low, Base;
    SameWindow(Written(r, cache, a), a);
  }

  // A cache that holds the chip's window is trusted for every address.
  lemma CoherentTrusted(r: Regs, a: Address)
    ensures Trusted(r, r.Window(), a)
  {
    hide Base;
    WindowBytes(r);
  }

  // After a reset the cache is the invalid marker: trusted unless a byte of the
  // window is 0xFF and the chip's is not.
  lemma InvalidTrusted(r: Regs, a: Address)
    ensures Trusted(r, INVALID, a) <==>
            (High(Base(a)) == 0xFF ==> r.high == 0xFF) && (Mid(Base(a)) == 0xFF ==> r.mid == 0xFF)
  {
    BaseBytes(a);
  }

  lemma MarkerByteMissed()
    ensures var r := Regs(0, 0, 0);                            // as the chip resets
            Written(r, INVALID, 0xFF00_8000).Window() == 0x8000
  {
    assert Base(0xFF00_8000) == 0xFF00_8000;
    assert High(0xFF00_8000) == High(INVALID) == 0xFF;
    assert Mid(0xFF00_8000) == 0 && Mid(INVALID) == 0xFF;
    assert Low(0xFF00_8000) == 0x80 && Low(INVALID) == 0xFF;
  }

  // Registers of which some have been written and the others not.
  predicate Partly(was: Regs, now: Regs, goal: Regs) {
    && (now.high == was.high || now.high == goal.high)
    && (now.mid == was.mid || now.mid == goal.mid)
    && (now.low == was.low || now.low == goal.low)
  }

  // Trying the same address again after a failure is always right: what the cache
  // skips was not touched.
  lemma RetryRight(r: Regs, now: Regs, a: Address)
    requires Partly(r, now, Written(r, r.Window(), a))
    ensures Trusted(now, r.Window(), a) && Written(now, r.Window(), a).Window() == Base(a)
  {
    WindowBytes(r);
    hide Base, High, Mid, Low;
    WindowExact(now, r.Window(), a);
  }

  // Any address is safe after a failure exactly if no register was written: if one
  // was, the cached window itself is not set again.
  lemma FailureExact(r: Regs, now: Regs, a: Address)
    requires r.Window() == Base(r.Window()) && Partly(r, now, Written(r, r.Window(), a))
    ensures (forall b: Address :: Trusted(now, r.Window(), b)) <==> now == r
  {
    var cache := r.Window();
    WindowBytes(r);
    hide High, Mid, Low, Base;
    if now == r {
      forall b: Address
        ensures Trusted(now, cache, b)
      {
        CoherentTrusted(r, b);
      }
    } else {
      assert !Trusted(now, cache, cache);
    }
  }

  lemma FailuresExact(r: Regs, a: Address)
    ensures r.Window() == Base(r.Window()) ==>
              forall now | Partly(r, now, Written(r, r.Window(), a)) ::
                (forall b: Address :: Trusted(now, r.Window(), b)) == (now == r)
  {
    hide High, Mid, Low, Base, Trusted, Written, Partly;
    if r.Window() == Base(r.Window()) {
      forall now | Partly(r, now, Written(r, r.Window(), a))
        ensures (forall b: Address :: Trusted(now, r.Window(), b)) == (now == r)
      {
        FailureExact(r, now, a);
      }
    }
  }

  // As when the second register's write fails: the high byte written, the low one
  // not, and the window that was cached is then not chosen.
  lemma PartialFailure()
    ensures var r := Regs(0x18, 0, 0);
            var cache := r.Window();
            var failed := r.(high := High(Base(0x2000_8000)));
            && Partly(r, failed, Written(r, cache, 0x2000_8000))
            && Written(failed, cache, 0x1800_0000).Window() == 0x2000_0000
  {
    assert Base(0x2000_8000) == 0x2000_8000 && High(0x2000_8000) == 0x20;
    assert Base(0x1800_0000) == 0x1800_0000;
  }

  // ------------------------------------------------------------------ the bus

  // Data at an address onwards, over what was there.
  ghost predicate Stored(before: map<int, Byte>, now: map<int, Byte>, a: int, data: seq<Byte>) {
    && (forall k | a <= k < a + |data| :: k in now && now[k] == data[k - a])
    && (forall k | !(a <= k < a + |data|) :: (k in now <==> k in before) && (k in now ==> now[k] == before[k]))
  }

  lemma StoredThen(m0: map<int, Byte>, m1: map<int, Byte>, m2: map<int, Byte>, a: int, d: seq<Byte>, e: seq<Byte>)
    requires Stored(m0, m1, a, d) && Stored(m1, m2, a + |d|, e)
    ensures Stored(m0, m2, a, d + e)
  {
  }

  // Bursts one after the other from a to end.
  ghost predicate InTurn(bursts: seq<(Address, nat)>, a: int, end: int) {
    if bursts == [] then a == end
    else
      var last: (Address, nat) := bursts[|bursts| - 1];
      last.0 as int + last.1 == end && InTurn(bursts[..|bursts| - 1], a, last.0)
  }

  lemma NoBursts(a: int)
    ensures InTurn([], a, a)
  {
  }

  lemma OneMore(bursts: seq<(Address, nat)>, a: int, b: (Address, nat))
    requires InTurn(bursts, a, b.0)
    ensures InTurn(bursts + [b], a, b.0 + b.1)
  {
    assert (bursts + [b])[..|bursts|] == bursts;
  }

  class Bus {
    var cache: Address
    var regs: Regs                       // the chip's
    var memory: map<int, Byte>           // the chip's
    ghost var bursts: seq<(Address, nat)>
    ghost var faults: nat                // transfers that failed

    constructor ()
      ensures cache == INVALID && regs == Regs(0, 0, 0) && bursts == [] && faults == 0
    {
      cache, regs, memory, bursts, faults := INVALID, Regs(0, 0, 0), map[], [], 0;
    }

    // wl_reset(): the chip loses its window.
    method Reset()
      modifies this
      ensures cache == INVALID && regs == Regs(0, 0, 0) && bursts == old(bursts) && memory == old(memory) && faults == old(faults)
    {
      cache := INVALID;
      regs := Regs(0, 0, 0);
    }

    method WriteReg(r: Regs) returns (ok: bool)
      modifies `regs, `faults
      ensures regs == r || (!ok && regs == old(regs))
      ensures faults == old(faults) + if ok then 0 else 1
    {
      var reached: bool := *;
      ok := *;
      if !ok { faults := faults + 1; }
      if ok || reached { regs := r; }
    }

    // bp_set_window()
    method SetWindow(a: Address) returns (ok: bool)
      modifies `cache, `regs, `faults
      ensures faults == old(faults) + if ok then 0 else 1
      ensures ok ==> cache == Base(a) && regs == Written(old(regs), old(cache), a)
      ensures !ok ==> cache == old(cache) && Partly(old(regs), regs, Written(old(regs), old(cache), a))
      ensures !ok && old(cache == regs.Window() == Base(cache)) ==>
          (forall b: Address :: Trusted(regs, cache, b)) == (regs == old(regs))
      ensures ok ==> (regs.Window() == cache <==> Trusted(old(regs), old(cache), a))
    {
      hide High, Mid, Low, Base, Trusted;
      WindowExact(regs, cache, a);
      ghost var was := regs;
      FailuresExact(was, a);
      var win := Base(a);
      if High(win) != High(cache) {
        ok := WriteReg(regs.(high := High(win)));
        if !ok { return; }
      }
      if Mid(win) != Mid(cache) {
        ok := WriteReg(regs.(mid := Mid(win)));
        if !ok { return; }
      }
      if Low(win) != Low(cache) {
        ok := WriteReg(regs.(low := Low(win)));
        if !ok { return; }
      }
      cache := win;
      ok := true;
    }

    // One burst, to the chip's own window; a failed one may have stored its first
    // bytes.
    method Burst(offset: nat, data: seq<Byte>) returns (ok: bool, stored: nat)
      requires 0 < |data| <= MAX_TRANSFER && offset + |data| <= WINDOW_SIZE
      requires regs.Window() + offset < 0x1_0000_0000
      modifies `memory, `bursts, `faults
      ensures faults == old(faults) + if ok then 0 else 1
      ensures stored <= |data| && (ok ==> stored == |data|)
      ensures Stored(old(memory), memory, regs.Window() + offset, data[..stored])
      ensures bursts == old(bursts) + [(regs.Window() + offset, |data|)]
    {
      ok := *;
      stored := |data|;
      if !ok {
        stored :| 0 <= stored <= |data|;
        faults := faults + 1;
      }
      var a := regs.Window() + offset;
      bursts := bursts + [(a, |data|)];
      for i := 0 to stored
        invariant Stored(old(memory), memory, a, data[..i])
        invariant bursts == old(bursts) + [(a, |data|)] && faults == old(faults) + if ok then 0 else 1
      {
        ghost var was := memory;
        memory := memory[a + i := data[i]];
        StoredThen(old(memory), was, memory, a, data[..i], [data[i]]);
        assert data[..i + 1] == data[..i] + [data[i]];
      }
    }

    // A burst no longer than the chip takes, inside one window.
    ghost predicate Proper(b: (Address, nat)) {
      0 < b.1 <= MAX_TRANSFER && Base(b.0) <= b.0 && b.0 + b.1 <= Base(b.0) + WINDOW_SIZE
    }

    // As long as it can be, with data up to `end` left: it ends with the data, at the
    // window's end, or at the chip's limit.
    ghost predicate Longest(b: (Address, nat), end: nat) {
      b.0 + b.1 <= end && (b.1 == MAX_TRANSFER || b.0 + b.1 == end || b.0 + b.1 == Base(b.0) + WINDOW_SIZE)
    }

    // One pass of bp_write_bulk()'s loop: the first n of the bytes, as many as fit
    // a burst and the window.
    method WriteChunk(at: Address, rest: seq<Byte>) returns (ok: bool, n: nat, stored: nat)
      requires rest != [] && Trusted(regs, cache, at)
      modifies this
      ensures faults == old(faults) + if ok then 0 else 1
      ensures stored <= n <= |rest| && 0 < n && (ok ==> stored == n)
      ensures Stored(old(memory), memory, at, rest[..stored])
      ensures ok ==> cache == regs.Window() == Base(at) && (at + n < 0x1_0000_0000 ==> Trusted(regs, cache, at + n))
      ensures bursts == old(bursts) || bursts == old(bursts) + [(at, n)]
      ensures ok ==> bursts != old(bursts)
      ensures Proper((at, n)) && Longest((at, n), at + |rest|)
    {
      hide High, Mid, Low, Trusted, Stored;
      BaseBytes(at);
      var offset := at % WINDOW_SIZE;
      n := |rest|;
      if n > MAX_TRANSFER { n := MAX_TRANSFER; }
      if n > WINDOW_SIZE - offset { n := WINDOW_SIZE - offset; }
      stored := 0;
      ok := SetWindow(at);
      if !ok {
        NothingStored(memory, at);
        return;
      }
      ok, stored := Burst(offset, rest[..n]);
      assert rest[..n][..stored] == rest[..stored];
      if ok && at + n < 0x1_0000_0000 {
        CoherentTrusted(regs, at + n);
      }
    }

    lemma NothingStored(m: map<int, Byte>, a: int)
      ensures Stored(m, m, a, [])
    {
    }

    // bp_write_bulk(): data[i] at address a + i and nothing else changed, in proper
    // bursts, one after the other and each as long as it can be; if a transfer fails,
    // as much of that as was done.
    method WriteBulk(a: Address, data: seq<Byte>) returns (ok: bool, ghost done: nat)
      requires a + |data| <= 0x1_0000_0000
      requires data != [] ==> Trusted(regs, cache, a)
      modifies this
      ensures done <= |data| && (ok ==> done == |data|) && Stored(old(memory), memory, a, data[..done])
      ensures ok && data != [] ==> cache == regs.Window()
      ensures faults == old(faults) + if ok then 0 else 1
      ensures old(bursts) <= bursts
      ensures forall i | |old(bursts)| <= i < |bursts| :: Proper(bursts[i]) && Longest(bursts[i], a + |data|)
      ensures ok ==> InTurn(bursts[|old(bursts)|..], a, a + |data|)
    {
      hide High, Mid, Low, Trusted, Base, Proper, Stored, Longest, InTurn;
      NoBursts(a);
      ghost var sent: seq<(Address, nat)> := [];
      ok, done := true, 0;
      var rest := data;
      NothingStored(memory, a);
      while rest != []
        invariant done + |rest| == |data| && rest == data[done..] && ok
        invariant Stored(old(memory), memory, a, data[..done])
        invariant rest != [] ==> Trusted(regs, cache, a + done)
        invariant done == 0 || cache == regs.Window()
        invariant bursts == old(bursts) + sent && InTurn(sent, a, a + done) && faults == old(faults)
        invariant forall i | |old(bursts)| <= i < |bursts| :: Proper(bursts[i]) && Longest(bursts[i], a + |data|)
        decreases |rest|
      {
        ghost var was := memory;
        var n, stored;
        ok, n, stored := WriteChunk(a + |data| - |rest|, rest);
        if ok {
          OneMore(sent, a, (a + done, n));
          sent := sent + [(a + done, n)];
        }
        StoredThen(old(memory), was, memory, a, data[..done], rest[..stored]);
        assert data[..done + stored] == data[..done] + rest[..stored];
        done := done + stored;
        if !ok { return; }
        rest := rest[n..];
      }
      assert bursts[|old(bursts)|..] == sent;
    }
  }
}
