// The CYW43 bus's transmit credit (drivers/cyw43_rp2350.c): the host numbers its
// frames modulo 256 and sends while the next number is not the credit, which the
// chip's own frames carry forward.
module Credit {
  import opened Arith
  import opened Common

  const HEADER_SIZE: nat := 12
  const MAX_ADVANCE: nat := 20
  const WINDOW: nat := 236             // 256 - MAX_ADVANCE

  // What one call of cyw43_pump() did. A frame carries, in byte 9, the low byte of
  // `granted`, which the chip's grant was at some time; `grant` is what it is now.
  datatype Pump = Failed | Quiet | Frame(hdr: seq<Byte>, granted: nat, grant: nat)

  function Word(hdr: seq<Byte>, i: nat): nat
    requires i + 1 < |hdr|
  {
    hdr[i] as int + 256 * (hdr[i + 1] as int)
  }

  // The two size fields are each other's complement: together all ones.
  predicate HeaderOk(hdr: seq<Byte>) {
    |hdr| >= HEADER_SIZE && Word(hdr, 0) + Word(hdr, 2) == 0xFFFF
  }

  // Byte for byte, that is.
  lemma HeaderBytes(hdr: seq<Byte>)
    requires |hdr| >= HEADER_SIZE
    ensures HeaderOk(hdr) <==> hdr[0] == 255 - hdr[2] && hdr[1] == 255 - hdr[3]
  {
  }

  // -------------------------------------------------- counting modulo 256

  // A header's credit moves the host's, counted without end, exactly when it is
  // 0..20 ahead -- for headers less than 236 behind and less than 256 ahead.
  lemma AdvanceExact(c: nat, g: nat)
    requires c < g + WINDOW && g < c + 256
    ensures (g % 256 - c % 256) % 256 <= MAX_ADVANCE <==> c <= g <= c + MAX_ADVANCE
  {
    Difference(g, c);
  }

  lemma Difference(a: nat, b: nat)
    ensures (a % 256 - b % 256) % 256 == (a - b) % 256
  {
  }

  // A header k behind the credit, taken as an advance, moves it exactly when k
  // modulo 256 is at least 236: then to a number past the credit.
  lemma StaleMoves(c: nat, k: nat)
    requires k <= c
    ensures var advance := ((c - k) % 256 - c % 256) % 256;
            (advance <= MAX_ADVANCE && (c - k) % 256 != c % 256) <==> k % 256 >= WINDOW
  {
    Difference(c - k, c);
    Difference(c - k, c - k + k);
    assert (c - (c - k)) % 256 == k % 256;
    Difference(c, c - k);
  }

  // A host that has sent all the 300 frames it was granted, and a header 236 old:
  // the credit goes twenty past the grant, and the next number is below it again.
  lemma StaleCounterexample()
    ensures var sent, granted := 300, 64;
            var credit := granted % 256;
            && (credit - sent % 256) % 256 <= MAX_ADVANCE
            && credit == (sent + 20) % 256 != sent % 256
  {
  }

  // -------------------------------------------------------- what a pump means

  // The credit, counted without end, and the flow control after one pump.
  function Learn(c: nat, off: bool, p: Pump): (nat, bool) {
    if p.Frame? && HeaderOk(p.hdr) then
      (if p.hdr[5] % 16 < 3 && c <= p.granted <= c + MAX_ADVANCE then p.granted else c, p.hdr[8] != 0)
    else
      (c, off)
  }

  function LearnAll(c: nat, off: bool, pumps: seq<Pump>): (nat, bool) {
    if pumps == [] then (c, off)
    else var s := LearnAll(c, off, pumps[..|pumps| - 1]); Learn(s.0, s.1, pumps[|pumps| - 1])
  }

  lemma LearnNone(c: nat, off: bool, grant: nat)
    ensures LearnAll(c, off, []) == (c, off) && GrantAfter(grant, []) == grant
  {
  }

  lemma LearnNext(c: nat, off: bool, grant: nat, pumps: seq<Pump>, k: nat)
    requires k < |pumps|
    ensures LearnAll(c, off, pumps[..k + 1]) == Learn(LearnAll(c, off, pumps[..k]).0, LearnAll(c, off, pumps[..k]).1, pumps[k])
    ensures GrantAfter(grant, pumps[..k + 1]) == if pumps[k].Frame? then pumps[k].grant else GrantAfter(grant, pumps[..k])
  {
    assert pumps[..k + 1][..k] == pumps[..k];
  }

  lemma BytesNone(credit: Byte)
    ensures LearnBytes(credit, []) == credit
  {
  }

  lemma BytesNext(credit: Byte, pumps: seq<Pump>, k: nat)
    requires k < |pumps|
    ensures LearnBytes(credit, pumps[..k + 1]) == LearnByte(LearnBytes(credit, pumps[..k]), pumps[k])
  {
    assert pumps[..k + 1][..k] == pumps[..k];
  }

  predicate Ready(n: nat, s: (nat, bool)) {
    !s.1 && s.0 != n
  }

  // ------------------------------------------------- what the bytes alone say

  // The header of a pump moves a credit byte: it is well formed, on one of the
  // three channels that carry credit, and 1 to 20 ahead of it.
  predicate Moves(credit: Byte, p: Pump) {
    p.Frame? && HeaderOk(p.hdr) && p.hdr[5] % 16 < 3 && 1 <= (p.hdr[9] - credit) % 256 <= MAX_ADVANCE
  }

  ghost predicate MovesOne(credit: Byte, pumps: seq<Pump>) {
    exists i | 0 <= i < |pumps| :: Moves(credit, pumps[i])
  }

  // The credit byte after a pump, and after several.
  function LearnByte(credit: Byte, p: Pump): Byte {
    if p.Frame? && HeaderOk(p.hdr) && p.hdr[5] % 16 < 3 && (p.hdr[9] - credit) % 256 <= MAX_ADVANCE then p.hdr[9] else credit
  }

  function LearnBytes(credit: Byte, pumps: seq<Pump>): Byte {
    if pumps == [] then credit else LearnByte(LearnBytes(credit, pumps[..|pumps| - 1]), pumps[|pumps| - 1])
  }

  // That is the byte of the last header taken up, one that was 1 to 20 ahead of the
  // credit then and that no later one is 1 to 20 ahead of.
  lemma {:induction false} LastTaken(credit: Byte, pumps: seq<Pump>)
    ensures var last := LearnBytes(credit, pumps);
            || (last == credit && !MovesOne(credit, pumps))
            || exists i | 0 <= i < |pumps| :: TakenLast(credit, pumps, i, last)
  {
    hide Moves, LearnByte;
    if pumps != [] {
      var n := |pumps| - 1;
      var before := LearnBytes(credit, pumps[..n]);
      LastTaken(credit, pumps[..n]);
      MovesMeans(before, pumps[n]);
      if Moves(before, pumps[n]) {
        assert pumps[n].Frame?;
        assert TakenLast(credit, pumps, n, pumps[n].hdr[9]);
      } else if i :| 0 <= i < n && TakenLast(credit, pumps[..n], i, before) {
        assert pumps[..n][..i] == pumps[..i];
        assert TakenLast(credit, pumps, i, before);
      }
    }
  }

  ghost predicate TakenLast(credit: Byte, pumps: seq<Pump>, i: nat, last: Byte)
    requires i < |pumps|
  {
    && Moves(LearnBytes(credit, pumps[..i]), pumps[i]) && pumps[i].hdr[9] == last
    && forall k | i < k < |pumps| :: !Moves(last, pumps[k])
  }

  lemma MovesMeans(credit: Byte, p: Pump)
    ensures LearnByte(credit, p) != credit <==> Moves(credit, p)
    ensures Moves(credit, p) ==> p.Frame? && |p.hdr| >= HEADER_SIZE && LearnByte(credit, p) == p.hdr[9]
  {
    if p.Frame? && HeaderOk(p.hdr) {
      QuotientIs(p.hdr[9] - credit, 256, if p.hdr[9] < credit then -1 else 0,
                 if p.hdr[9] < credit then p.hdr[9] - credit + 256 else p.hdr[9] - credit);
    }
  }

  // Whatever headers come, the credit byte stays where it is through all of them
  // exactly when none of them is 1 to 20 ahead of it, modulo 256: a grant 21 ahead is
  // out of reach, and stays so.
  lemma {:induction false} OutOfReach(credit: Byte, pumps: seq<Pump>)
    ensures (forall k | 0 <= k <= |pumps| :: LearnBytes(credit, pumps[..k]) == credit) <==>
            !MovesOne(credit, pumps)
  {
    hide Moves, LearnByte;
    if pumps == [] {
      assert pumps[..0] == [];
    } else {
      var n := |pumps| - 1;
      OutOfReach(credit, pumps[..n]);
      MovesMeans(credit, pumps[n]);
      assert forall k | 0 <= k <= n :: pumps[..n][..k] == pumps[..k];
      assert pumps[..|pumps|] == pumps;
      assert MovesOne(credit, pumps) <==> MovesOne(credit, pumps[..n]) || Moves(credit, pumps[n]) by {
        assert forall i | 0 <= i < n :: pumps[..n][i] == pumps[i];
      }
    }
  }

  // What the chip may do: its grant never goes back, is never 236 or more ahead of
  // the frames sent, and its headers are less than 236 behind it.
  predicate Honest(p: Pump, sent: nat, grant: nat) {
    p.Frame? ==>
      && grant <= p.grant < sent + WINDOW
      && p.granted <= p.grant < p.granted + WINDOW
      && (HeaderOk(p.hdr) ==> p.hdr[9] == p.granted % 256)
  }

  function GrantAfter(grant: nat, pumps: seq<Pump>): nat {
    if pumps == [] then grant
    else var p := pumps[|pumps| - 1]; if p.Frame? then p.grant else GrantAfter(grant, pumps[..|pumps| - 1])
  }

  predicate HonestAll(pumps: seq<Pump>, sent: nat, grant: nat) {
    forall i | 0 <= i < |pumps| :: Honest(pumps[i], sent, GrantAfter(grant, pumps[..i]))
  }

  // Credit within the grant stays within it.
  lemma LearnKeeps(c: nat, off: bool, p: Pump, sent: nat, grant: nat)
    requires sent <= c <= grant && Honest(p, sent, grant)
    ensures var s := Learn(c, off, p); sent <= s.0 && c <= s.0 <= (if p.Frame? then p.grant else grant)
  {
  }

  ghost predicate Low(b: Byte, n: nat) { b == n % 256 }

  lemma LowNext(b: Byte, n: nat)
    requires Low(b, n)
    ensures Low((b as int + 1) % 256, n + 1) && b == n % 256
  {
  }

  class Host {
    var credit: Byte
    var seqNo: Byte
    var flowOff: bool
    var stalls: nat
    var timeouts: nat
    ghost var sent: nat            // frames sent
    ghost var credited: nat        // the credit, counted without end
    ghost var grant: nat           // the chip's own, as of the last pump

    ghost predicate Valid()
      reads this
    {
      && Low(seqNo, sent) && Low(credit, credited)
      && sent <= credited <= grant && credited < sent + 256
    }

    // Initially one frame may be sent, which the chip allows.
    constructor (ghost grant: nat)
      requires 1 <= grant
      ensures Valid() && sent == 0 && credited == 1 && this.grant == grant && !flowOff
    {
      credit, seqNo, flowOff, stalls, timeouts := 1, 0, false, 0, 0;
      sent, credited, this.grant := 0, 1, grant;
    }

    // Comparing two bytes compares the counts.
    lemma MayIsReady()
      requires Valid()
      ensures !flowOff && credit != seqNo <==> Ready(sent, (credited, flowOff))
    {
    }

    lemma CreditByte()
      requires Valid()
      ensures credit == credited % 256 && (credit == seqNo <==> credited == sent)
    {
    }

    lemma ReadyBelow()
      requires Valid() && Ready(sent, (credited, flowOff))
      ensures !flowOff && sent < credited <= grant && credited < sent + 256
    {
    }

    // tx_credit_update(), on the header of the frame that pump p read.
    method CreditUpdate(hdr: seq<Byte>, ghost p: Pump)
      requires Valid() && p.Frame? && p.hdr == hdr && |hdr| >= HEADER_SIZE && Honest(p, sent, grant)
      modifies `credit, `flowOff, `credited, `grant
      ensures Valid() && (credited, flowOff) == Learn(old(credited), old(flowOff), p) && grant == p.grant
      ensures var good := hdr[0] == 255 - hdr[2] && hdr[1] == 255 - hdr[3];
              && flowOff == (if good then hdr[8] != 0 else old(flowOff))
              && credit == (if good && hdr[5] % 16 < 3 && (hdr[9] - old(credit)) % 256 <= 20 then hdr[9] else old(credit))
              && credited == if good && hdr[5] % 16 < 3 && old(credited) <= p.granted <= old(credited) + 20 then p.granted
                             else old(credited)
    {
      HeaderBytes(hdr);
      LearnKeeps(credited, flowOff, p, sent, grant);
      AdvanceExact(credited, p.granted);
      grant := p.grant;
      if Word(hdr, 0) + Word(hdr, 2) != 0xFFFF { return; }
      flowOff := hdr[8] != 0;
      if hdr[5] % 16 < 3 {
        var advance := (hdr[9] - credit) % 256;
        if advance <= MAX_ADVANCE {
          credit := hdr[9];
          credited := p.granted;
        }
      }
    }

    // tx_wait_credit()'s loop, with what the pumps before the deadline do.
    method PumpUntilReady(pumps: seq<Pump>) returns (ok: bool, used: nat)
      requires Valid() && HonestAll(pumps, sent, grant) && !Ready(sent, (credited, flowOff))
      modifies `credit, `flowOff, `timeouts, `credited, `grant
      ensures Valid() && used <= |pumps|
      ensures (credited, flowOff) == LearnAll(old(credited), old(flowOff), pumps[..used])
              && grant == GrantAfter(old(grant), pumps[..used])
      ensures credit == LearnBytes(old(credit), pumps[..used])
      ensures (ok <==> Ready(sent, (credited, flowOff))) && (ok <==> !flowOff && credit != seqNo)
      ensures forall k | 0 <= k < used :: !Ready(sent, LearnAll(old(credited), old(flowOff), pumps[..k])) && !pumps[k].Failed?
      ensures !ok ==> used == |pumps| || pumps[used].Failed?
      ensures timeouts == old(timeouts) + if !ok && used == |pumps| then 1 else 0
    {
      hide LearnAll, GrantAfter, Low, Ready, Learn, LearnByte, LearnBytes, HeaderOk, Honest;
      used := 0;
      LearnNone(credited, flowOff, grant);
      BytesNone(credit);
      while used < |pumps|
        invariant timeouts == old(timeouts) && used <= |pumps| && Valid() && !Ready(sent, (credited, flowOff))
        invariant (credited, flowOff) == LearnAll(old(credited), old(flowOff), pumps[..used])
        invariant grant == GrantAfter(old(grant), pumps[..used]) && credit == LearnBytes(old(credit), pumps[..used])
        invariant forall k | 0 <= k < used :: !Ready(sent, LearnAll(old(credited), old(flowOff), pumps[..k])) && !pumps[k].Failed?
      {
        MayIsReady();
        if pumps[used].Failed? { return false, used; }
        LearnNext(old(credited), old(flowOff), old(grant), pumps, used);
        BytesNext(old(credit), pumps, used);
        TakePump(pumps[used]);
        used := used + 1;
        MayIsReady();
        if !flowOff && credit != seqNo { return true, used; }
      }
      MayIsReady();
      timeouts := timeouts + 1;
      ok := false;
    }

    // tx_wait_credit(): it says yes after the first pump that leaves the host ready,
    // and no after a failed one or the last. The credit has moved exactly if one of
    // the headers was 1 to 20 ahead of it; a host whose credit is used up goes on
    // only then.
    method WaitCredit(pumps: seq<Pump>) returns (ok: bool, used: nat)
      requires Valid() && HonestAll(pumps, sent, grant)
      modifies `credit, `flowOff, `stalls, `timeouts, `credited, `grant
      ensures Valid() && used <= |pumps|
      ensures (credited, flowOff) == LearnAll(old(credited), old(flowOff), pumps[..used])
              && grant == GrantAfter(old(grant), pumps[..used])
      ensures credit == LearnBytes(old(credit), pumps[..used])
      ensures (ok <==> Ready(sent, (credited, flowOff))) && (ok <==> !flowOff && credit != seqNo)
      ensures forall k | 0 <= k < used :: !Ready(sent, LearnAll(old(credited), old(flowOff), pumps[..k])) && !pumps[k].Failed?
      ensures !ok ==> used == |pumps| || pumps[used].Failed?
      ensures credited == old(credited) <==> !MovesOne(old(credit), pumps[..used])
      ensures stalls == old(stalls) + if old(!flowOff && credit != seqNo) then 0 else 1
      ensures timeouts == old(timeouts) + if !ok && used == |pumps| then 1 else 0
      ensures old(credit) == seqNo && ok ==> MovesOne(old(credit), pumps[..used])
    {
      hide LearnAll, GrantAfter, Low, Learn, MovesOne, HonestAll;
      CreditByte();
      LearnNone(credited, flowOff, grant);
      MayIsReady();
      StaysPuts(credited, flowOff, pumps, sent, grant);
      if !flowOff && credit != seqNo {
        assert pumps[..0] == [];
        return true, 0;
      }
      stalls := stalls + 1;
      ok, used := PumpUntilReady(pumps);
    }

    // What a pump that did not fail brings: a frame shorter than its header, or none
    // at all, brings nothing.
    method TakePump(p: Pump)
      requires Valid() && !p.Failed? && Honest(p, sent, grant)
      modifies `credit, `flowOff, `credited, `grant
      ensures Valid() && (credited, flowOff) == Learn(old(credited), old(flowOff), p)
      ensures credit == LearnByte(old(credit), p)
      ensures grant == if p.Frame? then p.grant else old(grant)
    {
      hide Low;
      if p.Frame? {
        if |p.hdr| >= HEADER_SIZE {
          HeaderBytes(p.hdr);
          CreditUpdate(p.hdr, p);
        } else {
          grant := p.grant;
        }
      }
    }

    // A frame is numbered and sent if the wait allows it: then it is one of those
    // the chip has granted.
    method Send(pumps: seq<Pump>) returns (ok: bool, number: Byte)
      requires Valid() && HonestAll(pumps, sent, grant)
      modifies this
      ensures Valid() && sent == old(sent) + (if ok then 1 else 0)
      ensures ok <==> old(sent) < credited && !flowOff
      ensures ok ==> number == old(sent) % 256 && credited <= grant
    {
      hide LearnAll, GrantAfter, Low, HonestAll;
      var used;
      number := 0;
      ok, used := WaitCredit(pumps);
      if ok {
        ReadyBelow();
        LowNext(seqNo, sent);
        number := seqNo;
        seqNo := (seqNo as int + 1) % 256;
        sent := sent + 1;
      }
    }
  }

  // With an honest chip the count stays exactly when no header moves the byte.
  lemma {:induction false} StaysPut(c: nat, off: bool, pumps: seq<Pump>, sent: nat, grant: nat)
    requires sent <= c <= grant && HonestAll(pumps, sent, grant)
    ensures sent <= c <= LearnAll(c, off, pumps).0 <= GrantAfter(grant, pumps)
    ensures LearnAll(c, off, pumps).0 == c <==> !MovesOne(c % 256, pumps)
  {
    hide Moves, Honest, Learn;
    if pumps != [] {
      var n := |pumps| - 1;
      var before := LearnAll(c, off, pumps[..n]);
      HonestPrefix(pumps, n, sent, grant);
      StaysPut(c, off, pumps[..n], sent, grant);
      LearnKeeps(before.0, before.1, pumps[n], sent, GrantAfter(grant, pumps[..n]));
      MovesHonest(c, before.1, pumps[n], sent, GrantAfter(grant, pumps[..n]));
      assert MovesOne(c % 256, pumps) <==> MovesOne(c % 256, pumps[..n]) || Moves(c % 256, pumps[n]) by {
        assert forall i | 0 <= i < n :: pumps[..n][i] == pumps[i];
      }
    }
  }

  lemma HonestPrefix(pumps: seq<Pump>, n: nat, sent: nat, grant: nat)
    requires n <= |pumps| && HonestAll(pumps, sent, grant)
    ensures HonestAll(pumps[..n], sent, grant)
    ensures n < |pumps| ==> Honest(pumps[n], sent, GrantAfter(grant, pumps[..n]))
  {
    hide Honest, GrantAfter;
    forall i | 0 <= i < n
      ensures Honest(pumps[..n][i], sent, GrantAfter(grant, pumps[..n][..i]))
    {
      assert pumps[..n][..i] == pumps[..i];
    }
  }

  lemma StaysPuts(c: nat, off: bool, pumps: seq<Pump>, sent: nat, grant: nat)
    requires sent <= c <= grant && HonestAll(pumps, sent, grant)
    ensures forall n | 0 <= n <= |pumps| :: LearnAll(c, off, pumps[..n]).0 == c <==> !MovesOne(c % 256, pumps[..n])
  {
    hide MovesOne, LearnAll, HonestAll;
    forall n | 0 <= n <= |pumps|
      ensures LearnAll(c, off, pumps[..n]).0 == c <==> !MovesOne(c % 256, pumps[..n])
    {
      HonestPrefix(pumps, n, sent, grant);
      StaysPut(c, off, pumps[..n], sent, grant);
    }
  }

  // An honest header moves the byte exactly when it grants 1 to 20 more.
  lemma MovesHonest(c: nat, off: bool, p: Pump, sent: nat, grant: nat)
    requires sent <= c <= grant && Honest(p, sent, grant)
    ensures Learn(c, off, p).0 != c <==> Moves(c % 256, p)
  {
    if p.Frame? && HeaderOk(p.hdr) {
      AdvanceExact(c, p.granted);
      Difference(p.granted, c);
      if p.granted == c { QuotientIs(0, 256, 0, 0); }
      else if c < p.granted <= c + MAX_ADVANCE { QuotientIs(p.granted - c, 256, 0, p.granted - c); }
    }
  }

  // A host that has sent the 300 frames it was granted, and an honest chip that now
  // grants 321: the host stays stalled, however often it is told.
  lemma {:induction false} StalledForever(n: nat)
    ensures var hdr := [12, 0, 0xF3, 0xFF, 0, 2, 0, 12, 0, 65, 0, 0];
            var pumps := seq(n, i => Frame(hdr, 321, 321));
            HonestAll(pumps, 300, 300) && LearnAll(300, false, pumps) == (300, false) && !Ready(300, LearnAll(300, false, pumps))
  {
    var hdr: seq<Byte> := [12, 0, 0xF3, 0xFF, 0, 2, 0, 12, 0, 65, 0, 0];
    var pumps := seq(n, i => Frame(hdr, 321, 321));
    if n > 0 {
      StalledForever(n - 1);
      assert pumps[..n - 1] == seq(n - 1, i => Frame(hdr, 321, 321));
    }
    forall i | 0 <= i < n
      ensures GrantAfter(300, pumps[..i]) == if i == 0 then 300 else 321
    {
      if i > 0 { assert pumps[..i][i - 1] == Frame(hdr, 321, 321); }
    }
  }
}
