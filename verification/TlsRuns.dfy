/** Properties of every run of the TLS client: order of the handshake, key installation, numbering of
    encryptions, and when `receive` comes to an end. */
module TlsRuns {
  import opened Outcomes
  import opened Binary
  import opened TlsRecords
  import opened TlsModel
  import Tcp = TcpModel

  datatype Event = Packet(packet: Tcp.Packet) | Poll | Write(bytes: Bytes) | Send

  function Step(env: Env, st: Tls, e: Event): Outcome<Tls> {
    match e
    case Packet(p) => ProcessPacket(st, p)
    case Poll => var r := Receive(env, st); if r.Got? then Ok(r.st) else Failure
    case Write(bytes) => Push(st, bytes)
    case Send => Flush(env, st)
  }

  function Run(env: Env, st: Tls, es: seq<Event>): Outcome<Tls> {
    if es == [] then Ok(st)
    else
      var before :- Run(env, st, es[..|es| - 1]);
      Step(env, before, es[|es| - 1])
  }

  lemma {:induction false} RunAppend(env: Env, st: Tls, a: seq<Event>, b: seq<Event>)
    requires Run(env, st, a).Ok?
    ensures Run(env, st, a + b) == Run(env, Run(env, st, a).value, b)
  {
    hide Step;
    if b == [] {
      assert a + b == a;
    } else {
      RunAppend(env, st, a, b[..|b| - 1]);
      assert (a + b)[..|a + b| - 1] == a + b[..|b| - 1];
    }
  }

  // ----- What one step of the handshake can do -----

  function Rank(phase: Phase): nat {
    match phase
    case ClientHelloToSend => 0
    case ServerHello => 1
    case ServerCertificate => 2
    case ServerKeyExchange => 3
    case ServerHelloDone => 4
    case ClientKeyExchange => 5
    case ClientFinished => 6
    case ServerFinished => 7
  }

  predicate Installed(st: Tls) {
    Rank(st.phase) >= 6
  }

  /** The 64-bit sequence number of encryption `i`. */
  function Number(i: nat): uint64 {
    i % 0x1_0000_0000_0000_0000
  }

  /** Numbering of the encryptions made so far, all under the installed keys. */
  ghost predicate Numbered(sealings: seq<Sealing>, keys: Keys) {
    forall i :: 0 <= i < |sealings| ==> IsNumber(sealings[i], keys, i)
  }

  /** Sealing number `i`: the nonce is the fixed IV and the number, which also opens the AAD. */
  predicate IsNumber(s: Sealing, keys: Keys, i: nat) {
    && s.keys == keys
    && s.nonce == Nonce(keys, Number(i))
    && |s.aad| == 13 && s.aad[..8] == Encode(8, Number(i))
  }

  ghost predicate KeysInv(st: Tls) {
    && (st.keys.Some? <==> Installed(st))
    && st.writeSeq == Number(|st.sealings|)
    && (st.keys.None? ==> st.sealings == [])
    && (st.keys.Some? ==> |st.keys.value.clientIv| == 4 && Numbered(st.sealings, st.keys.value))
  }

  /** Everything a step preserves: the phase only moves forward, installed keys stay, the encryptions
      made so far stay, and the transcript only grows and is frozen once the keys are installed. */
  ghost predicate Progress(before: Tls, after: Tls) {
    && Rank(before.phase) <= Rank(after.phase)
    && (before.keys.Some? ==> after.keys == before.keys && after.transcript == before.transcript)
    && before.transcript <= after.transcript
    && before.sealings <= after.sealings
  }

  lemma ProgressTrans(a: Tls, b: Tls, c: Tls)
    requires Progress(a, b) && Progress(b, c)
    ensures Progress(a, c)
  {
  }

  lemma NextNumber(n: nat)
    ensures (Number(n) + 1) % 0x1_0000_0000_0000_0000 == Number(n + 1)
  {
  }

  lemma SealingKeepsInv(st: Tls, keys: Keys, contentType: byte, plain: Bytes)
    requires st.writeSeq == Number(|st.sealings|) && Numbered(st.sealings, keys)
    ensures var after := AfterSealing(st, SealingOf(keys, st.writeSeq, contentType, plain));
            && after.writeSeq == Number(|after.sealings|)
            && Numbered(after.sealings, keys)
  {
    var s := SealingOf(keys, st.writeSeq, contentType, plain);
    assert IsNumber(s, keys, |st.sealings|) by {
      assert s.aad[..8] == Encode(8, st.writeSeq);
    }
    NextNumber(|st.sealings|);
    hide IsNumber;
    hide SealingOf;
    var all := st.sealings + [s];
    assert forall i :: 0 <= i < |st.sealings| ==> all[i] == st.sealings[i];
  }

  lemma KeyExchangeKeepsInv(env: Env, st: Tls)
    requires KeysInv(st) && !Installed(st) && SendKeyExchangeAndFinished(env, st).Ok?
    ensures var after := SendKeyExchangeAndFinished(env, st).value.(phase := ClientFinished);
            KeysInv(after) && Progress(st, after) && after.buf == st.buf
  {
    hide Tcp.Transmit;
    hide FinishedMessage;
    hide KeyExchangeMessage;
    hide DeriveMaster;
    hide Numbered;
    hide Number;
    hide SealingOf;
    hide SealedRecord;
    hide Record;
    var transcript := st.transcript + KeyExchangeMessage(env);
    var master := DeriveMaster(env, st.serverPub, transcript);
    var keys := DeriveKeys(env, master, st.serverRandom, st.clientRandom).value;
    assert Numbered([], keys) by {
      NumberedEmpty(keys);
    }
    SealingKeepsInv(st, keys, HANDSHAKE, FinishedMessage(env, master, transcript));
  }

  lemma NumberedEmpty(keys: Keys)
    ensures Numbered([], keys)
  {
  }

  lemma FlushKeepsInv(env: Env, st: Tls)
    requires KeysInv(st) && Flush(env, st).Ok?
    ensures KeysInv(Flush(env, st).value) && Progress(st, Flush(env, st).value)
  {
    hide Tcp.Transmit;
    hide Numbered;
    hide Number;
    hide SealingOf;
    hide SealedRecord;
    SealingKeepsInv(st, st.keys.value, APPLICATION_DATA, st.sendBuf);
  }

  /** A handshake step keeps the invariant and consumes at least a record header, except that the
      client may go on waiting for the server's Finished. */
  lemma HandshakeStep(env: Env, st: Tls)
    requires KeysInv(st) && IsWhole(st.buf) && ProcessHandshake(env, st).Ok?
    ensures var after := ProcessHandshake(env, st).value;
            && KeysInv(after) && Progress(st, after)
            && (|after.buf| <= |st.buf| - 5
                || (st.phase == ClientFinished && ServerClosing(st.buf) == Incomplete && after == st))
  {
    hide SendKeyExchangeAndFinished;
    hide Numbered;
    hide Number;
    hide Value;
    if st.phase == ServerHelloDone && HelloDoneReading(st.buf[5..]).Message? {
      KeyExchangeKeepsInv(env, Hash(st, HelloDoneReading(st.buf[5..]).size));
    }
  }

  /** One pass through the body of `receive`. */
  lemma OnceStep(env: Env, st: Tls)
    requires KeysInv(st) && !ReceiveOnce(env, st).Thrown?
    ensures var once := ReceiveOnce(env, st);
            && KeysInv(once.st) && Progress(st, once.st)
            && (once.Returned? ==> |once.st.buf| <= |st.buf|)
            && (once.Returned? && once.out.Some? ==> |once.st.buf| < |st.buf|)
            && (once.Again? ==> |once.st.buf| <= |st.buf| - 5 || IsStuck(st))
  {
    hide ProcessHandshake;
    hide Tcp.Transmit;
    hide Numbered;
    hide Decrypted;
    if |st.buf| >= 5 && IsTls12(st.buf) && IsWhole(st.buf) && st.phase != ServerFinished {
      if ProcessHandshake(env, st).Ok? {
        HandshakeStep(env, st);
      }
    }
  }

  // ----- When `receive` ends -----

  /** ChangeCipherSpec is buffered but the Finished record after it is not. */
  predicate IsStuck(st: Tls) {
    st.phase == ClientFinished && IsWhole(st.buf) && IsTls12(st.buf) && ServerClosing(st.buf) == Incomplete
  }

  /** The repetition makes no progress exactly in that situation, and then changes nothing at all. */
  lemma StuckIff(env: Env, st: Tls)
    requires KeysInv(st)
    ensures IsStuck(st) ==> ReceiveOnce(env, st) == Again(st)
    ensures ReceiveOnce(env, st).Again? && |ReceiveOnce(env, st).st.buf| >= |st.buf| ==> IsStuck(st)
  {
    if ReceiveOnce(env, st).Again? {
      hide ReceiveOnce;
      OnceStep(env, st);
    }
  }

  /** `n` passes through the body of `receive`, with no bound on how often it repeats. */
  ghost function Passes(env: Env, st: Tls, n: nat): Once {
    if n == 0 then Again(st)
    else
      var before := Passes(env, st, n - 1);
      if before.Again? then ReceiveOnce(env, before.st) else before
  }

  lemma {:induction false} PassesFirst(env: Env, st: Tls, n: nat)
    requires ReceiveOnce(env, st).Again?
    ensures Passes(env, st, n + 1) == Passes(env, ReceiveOnce(env, st).st, n)
  {
    hide ReceiveOnce;
    if n == 0 {
      assert Passes(env, st, 1) == ReceiveOnce(env, st);
    } else {
      PassesFirst(env, st, n - 1);
    }
  }

  lemma {:induction false} StuckForever(env: Env, st: Tls, n: nat)
    requires KeysInv(st) && IsStuck(st)
    ensures Passes(env, st, n) == Again(st)
  {
    hide ReceiveOnce;
    hide IsStuck;
    hide KeysInv;
    if n > 0 {
      StuckForever(env, st, n - 1);
      StuckIff(env, st);
    }
  }

  /** Whether and how the unbounded recursion ends. */
  ghost predicate EndsWith(env: Env, st: Tls, r: Received, n: nat) {
    match r
    case Failed => Passes(env, st, n) == Thrown
    case Got(out, s) => Passes(env, st, n) == Returned(out, s)
    case Spins => false
  }

  /** `Receive` gives the result of the unbounded recursion, and says `Spins` exactly when that
      recursion never ends. */
  lemma {:induction false} ReceiveIsLimit(env: Env, st: Tls)
    requires KeysInv(st)
    ensures Receive(env, st).Spins? <==> forall n: nat :: Passes(env, st, n).Again?
    ensures !Receive(env, st).Spins? ==> exists n: nat :: EndsWith(env, st, Receive(env, st), n)
    decreases |st.buf|
  {
    hide ReceiveOnce;
    var once := ReceiveOnce(env, st);
    assert Passes(env, st, 1) == once by {
      assert Passes(env, st, 0) == Again(st);
    }
    if once.Again? {
      OnceStep(env, st);
      StuckIff(env, st);
      if |once.st.buf| < |st.buf| {
        ReceiveIsLimit(env, once.st);
        forall n: nat
          ensures Passes(env, st, n + 1) == Passes(env, once.st, n)
        {
          PassesFirst(env, st, n);
        }
        if Receive(env, once.st).Spins? {
          forall n: nat
            ensures Passes(env, st, n).Again?
          {
            if n > 0 {
              assert Passes(env, st, (n - 1) + 1) == Passes(env, once.st, n - 1);
            }
          }
        } else {
          var n: nat :| EndsWith(env, once.st, Receive(env, once.st), n);
          assert Passes(env, st, n + 1) == Passes(env, once.st, n);
          assert EndsWith(env, st, Receive(env, st), n + 1);
          assert !Passes(env, st, n + 1).Again?;
        }
      } else {
        forall n: nat
          ensures Passes(env, st, n).Again?
        {
          StuckForever(env, st, n);
        }
      }
    } else {
      assert EndsWith(env, st, Receive(env, st), 1);
      assert !Passes(env, st, 1).Again?;
    }
  }

  /** ... and the recursion never ends exactly when some pass reaches that situation. */
  lemma {:induction false} SpinsIffReachesStuck(env: Env, st: Tls)
    requires KeysInv(st)
    ensures Receive(env, st).Spins? <==> exists n: nat :: ReachesStuck(env, st, n)
    decreases |st.buf|
  {
    hide ReceiveOnce;
    hide IsStuck;
    var once := ReceiveOnce(env, st);
    assert ReachesStuck(env, st, 0) <==> IsStuck(st);
    StuckIff(env, st);
    if once.Again? && |once.st.buf| < |st.buf| {
      OnceStep(env, st);
      hide KeysInv;
      SpinsIffReachesStuck(env, once.st);
      forall n: nat
        ensures ReachesStuck(env, st, n + 1) <==> ReachesStuck(env, once.st, n)
      {
        PassesFirst(env, st, n);
      }
      if Receive(env, st).Spins? {
        var n: nat :| ReachesStuck(env, once.st, n);
        assert ReachesStuck(env, st, n + 1);
      }
      forall n: nat | ReachesStuck(env, st, n)
        ensures Receive(env, st).Spins?
      {
        assert n > 0;
        assert ReachesStuck(env, st, (n - 1) + 1);
        assert ReachesStuck(env, once.st, n - 1);
        assert Receive(env, once.st).Spins?;
      }
    } else if !once.Again? {
      forall n: nat
        ensures !ReachesStuck(env, st, n)
      {
        StopsAfterFirst(env, st, n);
      }
    }
  }

  ghost predicate ReachesStuck(env: Env, st: Tls, n: nat) {
    Passes(env, st, n).Again? && IsStuck(Passes(env, st, n).st)
  }

  lemma {:induction false} StopsAfterFirst(env: Env, st: Tls, n: nat)
    requires !ReceiveOnce(env, st).Again?
    ensures n > 0 ==> Passes(env, st, n) == ReceiveOnce(env, st)
  {
    hide ReceiveOnce;
    if n > 1 {
      StopsAfterFirst(env, st, n - 1);
    } else if n == 1 {
      assert Passes(env, st, 0) == Again(st);
    }
  }

  /** A call on a client that already waits for the server's Finished ends unless ChangeCipherSpec is
      whole, well formed, and the record after it is not. */
  lemma ReceiveEndsIff(env: Env, st: Tls)
    requires KeysInv(st) && st.phase == ClientFinished
    ensures Receive(env, st).Spins? <==> IsStuck(st)
  {
    StuckIff(env, st);
    if ReceiveOnce(env, st).Again? && !IsStuck(st) {
      OnceStep(env, st);
      EstablishedNeverSpins(env, ReceiveOnce(env, st).st);
    }
  }

  /** The simplest such buffer: ChangeCipherSpec alone. */
  lemma LoneChangeCipherSpins(env: Env, st: Tls)
    requires KeysInv(st) && st.phase == ClientFinished && st.buf == CHANGE_CIPHER_RECORD
    ensures Receive(env, st).Spins?
  {
    assert st.buf[3..5] == Encode(2, 1);
    SmallPowers();
    StoreLoad(2, 1);
    assert st.buf[6..] == [];
    ReceiveEndsIff(env, st);
  }

  /** Once the handshake is over `receive` never repeats. */
  lemma EstablishedNeverSpins(env: Env, st: Tls)
    requires Rank(st.phase) == 7
    ensures !ReceiveOnce(env, st).Again? && !Receive(env, st).Spins?
  {
  }

  // ----- Every run -----

  lemma {:induction false} ReceiveStep(env: Env, st: Tls)
    requires KeysInv(st) && Receive(env, st).Got?
    ensures var r := Receive(env, st);
            && KeysInv(r.st) && Progress(st, r.st) && |r.st.buf| <= |st.buf|
            && (r.out.Some? ==> |r.st.buf| < |st.buf|)
    decreases |st.buf|
  {
    hide ReceiveOnce;
    hide KeysInv;
    OnceStep(env, st);
    var once := ReceiveOnce(env, st);
    if once.Again? {
      ReceiveStep(env, once.st);
      ProgressTrans(st, once.st, Receive(env, st).st);
      hide Progress;
    }
  }

  lemma AnyStep(env: Env, st: Tls, e: Event)
    requires KeysInv(st) && Step(env, st, e).Ok?
    ensures KeysInv(Step(env, st, e).value) && Progress(st, Step(env, st, e).value)
  {
    hide Receive;
    hide Flush;
    hide Tcp.ProcessPacket;
    hide Numbered;
    match e
    case Packet(p) =>
    case Write(bytes) =>
    case Poll => ReceiveStep(env, st);
    case Send => FlushKeepsInv(env, st);
  }

  lemma CreateInv(env: Env, tcp: Tcp.Client)
    requires Create(env, tcp).Ok?
    ensures KeysInv(Create(env, tcp).value)
  {
    hide Tcp.Connect;
  }

  /** The invariant holds after every run of a new client. */
  lemma {:induction false} RunInv(env: Env, tcp: Tcp.Client, es: seq<Event>)
    requires Create(env, tcp).Ok?
    ensures var r := Run(env, Create(env, tcp).value, es); r.Ok? ==> KeysInv(r.value)
  {
    hide Step;
    hide KeysInv;
    var st := Create(env, tcp).value;
    if es == [] {
      CreateInv(env, tcp);
    } else if Run(env, st, es).Ok? {
      var before := es[..|es| - 1];
      RunInv(env, tcp, before);
      AnyStep(env, Run(env, st, before).value, es[|es| - 1]);
    }
  }

  /** Between any two moments of a run the handshake only moved forward, keys once installed were
      kept, and the transcript hashed by the end of the key exchange is final. */
  lemma {:induction false} RunProgress(env: Env, st: Tls, es: seq<Event>)
    requires KeysInv(st)
    ensures Run(env, st, es).Ok? ==> KeysInv(Run(env, st, es).value) && Progress(st, Run(env, st, es).value)
  {
    hide Step;
    hide KeysInv;
    if es != [] && Run(env, st, es).Ok? {
      var before := es[..|es| - 1];
      RunProgress(env, st, before);
      var mid := Run(env, st, before).value;
      AnyStep(env, mid, es[|es| - 1]);
      ProgressTrans(st, mid, Run(env, st, es).value);
    }
  }

  // ----- Distinct nonces -----

  ghost predicate AllDistinct(sealings: seq<Sealing>) {
    forall i, j :: 0 <= i < j < |sealings| ==> sealings[i].nonce != sealings[j].nonce
  }

  lemma NonceInjective(keys: Keys, m: uint64, n: uint64)
    ensures Nonce(keys, m) == Nonce(keys, n) <==> m == n
  {
    if Nonce(keys, m) == Nonce(keys, n) {
      var k := |keys.clientIv|;
      assert Nonce(keys, m)[k..] == Encode(8, m) && Nonce(keys, n)[k..] == Encode(8, n);
      SmallPowers();
      StoreLoad(8, m);
      StoreLoad(8, n);
    }
  }

  lemma NumberBelow(i: nat)
    requires i < 0x1_0000_0000_0000_0000
    ensures Number(i) == i
  {
  }

  /** No two encryptions of a run share a nonce if and only if there were at most 2^64 of them. */
  lemma NoncesDistinctIff(st: Tls)
    requires KeysInv(st)
    ensures AllDistinct(st.sealings) <==> |st.sealings| <= 0x1_0000_0000_0000_0000
  {
    hide Nonce;
    hide Number;
    var all := st.sealings;
    if |all| > 0x1_0000_0000_0000_0000 {
      var wrapped := 0x1_0000_0000_0000_0000;
      assert Number(0) == Number(wrapped) by {
        WrappedNumber();
      }
      assert IsNumber(all[0], st.keys.value, 0) && IsNumber(all[wrapped], st.keys.value, wrapped);
      assert all[0].nonce == all[wrapped].nonce;
    } else {
      forall i, j | 0 <= i < j < |all|
        ensures all[i].nonce != all[j].nonce
      {
        assert IsNumber(all[i], st.keys.value, i) && IsNumber(all[j], st.keys.value, j);
        NumberBelow(i);
        NumberBelow(j);
        NonceInjective(st.keys.value, i, j);
      }
    }
  }

  lemma WrappedNumber()
    ensures Number(0) == Number(0x1_0000_0000_0000_0000)
  {
  }
}
