/** The interrupt-driven JTAG UART driver: two rings, a foreground `Write`/`Read` on one side and the
    interrupt routine on the other.

    `Interrupts` stands for any number of interrupt and alarm calls; the foreground code calls it before
    every access to shared state made with interrupts enabled, and before every byte of its block copies.
    What is proved therefore holds for every interleaving of the two sides. */
module JtagUart {
  import opened Ring

  type Byte = b: int | 0 <= b < 256

  const INT_MAX := 0x7FFF_FFFF

  /** A value read from the control register: the pending bits, AC, and the WSPACE field. */
  datatype Control = Control(ri: bool, wi: bool, ac: bool, wspace: nat)

  /** A value read from the data register: RVALID, the RAVAIL count, and the byte. */
  datatype Data = Data(rvalid: bool, ravail: nat, value: Byte)

  /** The UART core with the host behind it.  The host may act before any register access; `patience`
      bounds how often it still will, so that a run of the interrupt routine is finite. */
  class Device {
    var rxFifo: seq<Byte>
    var wspace: nat
    var re: bool
    var we: bool
    var ac: bool
    var patience: nat
    ghost var popped: seq<Byte>  // every valid byte ever read from the data register
    ghost var sent: seq<Byte>    // every byte ever written to the data register
    ghost var asked: bool        // the control register last read showed a pending bit
    ghost var present: bool      // the control register last read showed AC
    ghost var dry: bool          // the data register last read showed an empty FIFO

    constructor ()
      ensures popped == [] && sent == [] && !re && !we
    {
      rxFifo, wspace, patience, re, we, ac := [], 0, 0, false, false, false;
      popped, sent, asked, present, dry := [], [], false, false, false;
    }

    /** The host sends more bytes, fetches bytes, or reports that it is there. */
    method Host()
      modifies this`rxFifo, this`wspace, this`ac, this`patience
      ensures wspace >= old(wspace)
      ensures patience < old(patience) || (patience == old(patience) && rxFifo == old(rxFifo))
    {
      var acts: bool := *;
      if acts && patience > 0 {
        var more: seq<Byte>, fetched: nat := *, *;
        rxFifo, wspace, patience := rxFifo + more, wspace + fetched, patience - 1;
        ac := *;
      }
    }

    /** The interrupt bits may be raised only with their enable bit set, RI only with a byte to fetch
        and WI only with room for a byte. */
    method ReadControl() returns (c: Control)
      modifies this`rxFifo, this`wspace, this`ac, this`patience, this`asked, this`present
      ensures asked == (c.ri || c.wi) && present == c.ac
      ensures c.wspace == wspace >= old(wspace)
      ensures c.ri ==> re && rxFifo != []
      ensures c.wi ==> we && c.wspace > 0
      ensures patience < old(patience) || (patience == old(patience) && rxFifo == old(rxFifo))
    {
      Host();
      var ri: bool, wi: bool := *, *;
      c := Control(ri && re && rxFifo != [], wi && we && wspace > 0, ac, wspace);
      asked, present := c.ri || c.wi, c.ac;
    }

    /** Writing a one to AC clears it. */
    method WriteControl(re: bool, we: bool, clearAc: bool)
      modifies this`re, this`we, this`ac
      ensures this.re == re && this.we == we && ac == (old(ac) && !clearAc)
    {
      this.re, this.we, ac := re, we, ac && !clearAc;
    }

    /** RVALID is clear exactly on an empty FIFO, and then RAVAIL is zero. */
    method ReadData() returns (d: Data)
      modifies this`rxFifo, this`wspace, this`ac, this`patience, this`popped, this`dry
      ensures dry == !d.rvalid
      ensures d.rvalid ==> popped == old(popped) + [d.value]
      ensures !d.rvalid ==> popped == old(popped) && d.ravail == 0
      ensures wspace >= old(wspace)
      ensures patience < old(patience)
           || (patience == old(patience) && |rxFifo| == |old(rxFifo)| - (if d.rvalid then 1 else 0)
               && (old(rxFifo) != [] ==> d.rvalid))
    {
      Host();
      dry := rxFifo == [];
      if rxFifo == [] {
        d := Data(false, 0, 0);
      } else {
        d := Data(true, |rxFifo| - 1, rxFifo[0]);
        popped := popped + [rxFifo[0]];
        rxFifo := rxFifo[1..];
      }
    }

    /** The core drops a byte written without space, so the driver must never do that. */
    method WriteData(b: Byte)
      requires wspace > 0
      modifies this`wspace, this`sent
      ensures sent == old(sent) + [b] && wspace == old(wspace) - 1
    {
      sent, wspace := sent + [b], wspace - 1;
    }
  }

  datatype WriteResult = Written(n: nat) | WriteWouldBlock | WriteIoError | WriteStillWaiting(n: nat)
  datatype ReadResult = Got(n: nat) | ReadWouldBlock | ReadIoError | ReadStillWaiting
  datatype CloseResult = Closed | CloseWouldBlock | CloseStillWaiting

  /** How one turn of the outer loop of `Write` ends. */
  datatype Turn = Again | Stop | Spinning

  /** How many bytes of its buffer a `Write` call has accepted. */
  function Taken(r: WriteResult): nat {
    match r
    case Written(n) => n
    case WriteStillWaiting(n) => n
    case _ => 0
  }

  class Uart {
    const dev: Device
    const rxBuf: array<Byte>
    const txBuf: array<Byte>
    var rxIn: nat
    var rxOut: nat
    var txIn: nat
    var txOut: nat
    var re: bool  // the RE bit of irq_enable
    var we: bool  // the WE bit of irq_enable
    var hostInactive: nat
    var timeout: nat

    ghost var accepted: seq<Byte>   // every byte `Write` has published
    ghost var delivered: seq<Byte>  // every byte `Read` has taken
    ghost var txQ: seq<Byte>        // the transmit ring's contents, oldest first
    ghost var rxQ: seq<Byte>        // the receive ring's contents, oldest first
    ghost var txOwed: bool          // a running `Write` has published bytes and will set WE
    ghost var rxOwed: bool          // a running `Read` has taken bytes and will set RE
    ghost var goneTicks: nat        // how often the alarm has found the host gone
    ghost var turns: nat            // how many turns the wait loops have made

    /** The ghost queues are what the index pairs and buffers stand for. */
    ghost predicate Rings()
      reads this, rxBuf, txBuf
    {
      && rxBuf.Length == txBuf.Length >= 2 && rxBuf != txBuf
      && Holds(txBuf[..], txOut, txIn, txQ)
      && Holds(rxBuf[..], rxOut, rxIn, rxQ)
    }

    /** Nothing is lost, duplicated or reordered on either ring. */
    ghost predicate Conserved()
      reads this, dev
    {
      && accepted == dev.sent + txQ
      && dev.popped == delivered + rxQ
    }

    /** An interrupt enable bit is clear only while its ring has no work for the interrupt routine,
        or a running call will set it. */
    ghost predicate Awake()
      reads this, dev
    {
      && dev.re == re && dev.we == we
      && (!re ==> |rxQ| == rxBuf.Length - 1 || rxOwed)
      && (!we ==> txQ == [] || txOwed)
    }

    ghost predicate Valid()
      reads this, dev, rxBuf, txBuf
    {
      Rings() && Conserved() && Awake()
    }

    /** At some time since the old state the host was considered gone. */
    twostate predicate HostGone()
      reads this
    {
      old(hostInactive) >= timeout || goneTicks > old(goneTicks)
    }

    /** What the interrupt side may do between two foreground steps. */
    twostate predicate Serviced()
      reads this, dev
    {
      old(dev.sent) <= dev.sent && old(rxQ) <= rxQ && Watched()
    }

    /** The host is not considered gone now unless it has been noticed. */
    twostate predicate Watched()
      reads this
    {
      goneTicks >= old(goneTicks) && turns >= old(turns) && timeout == old(timeout) && (hostInactive >= timeout ==> HostGone())
    }

    constructor (dev: Device, n: nat, timeout: nat, alarmStarted: bool)
      requires n >= 2
      requires dev.sent == [] && dev.popped == []
      modifies dev
      ensures Valid() && fresh(rxBuf) && fresh(txBuf)
      ensures this.dev == dev && rxBuf.Length == n
      ensures accepted == [] && delivered == [] && !txOwed && !rxOwed
      ensures re && !we && hostInactive == 0
      ensures this.timeout == if alarmStarted then timeout else INT_MAX
    {
      this.dev := dev;
      rxBuf, txBuf := new Byte[n](_ => 0), new Byte[n](_ => 0);
      rxIn, rxOut, txIn, txOut := 0, 0, 0, 0;
      re, we := true, false;
      hostInactive := 0;
      this.timeout := if alarmStarted then timeout else INT_MAX;
      accepted, delivered, txQ, rxQ, txOwed, rxOwed, goneTicks, turns := [], [], [], [], false, false, 0, 0;
      new;
      dev.WriteControl(re, we, false);
    }

    // ---------------------------------------------------------------- interrupt side

    /** Stores a received byte and publishes the producer's index. */
    method StoreRx(b: Byte)
      requires Rings() && |rxQ| < rxBuf.Length - 1
      modifies this`rxIn, this`rxQ, rxBuf
      ensures Rings() && rxQ == old(rxQ) + [b]
    {
      RunBounds(rxBuf.Length, rxOut, rxIn, |rxQ|);
      WriteToFreePlace(rxBuf[..], rxOut, rxIn, rxQ, rxIn, b);
      Publish(rxBuf[..][rxIn := b], rxOut, rxIn, rxQ, [b]);
      rxBuf[rxIn] := b;
      assert rxBuf[..] == old(rxBuf[..])[rxIn := b];
      rxIn := (rxIn + 1) % rxBuf.Length;
      rxQ := rxQ + [b];
    }

    /** Hands the oldest byte of the transmit ring to the device and publishes the consumer's index. */
    method SendTx()
      requires Rings() && txQ != [] && dev.wspace > 0
      modifies this`txOut, this`txQ, dev`sent, dev`wspace
      ensures Rings() && txQ == old(txQ)[1..]
      ensures dev.sent == old(dev.sent) + [old(txQ)[0]]
      ensures dev.wspace == old(dev.wspace) - 1
    {
      RunBounds(txBuf.Length, txOut, txIn, |txQ|);
      Consume(txBuf[..], txOut, txIn, txQ, 1);
      dev.WriteData(txBuf[txOut]);
      txOut := (txOut + 1) % txBuf.Length;
      txQ := txQ[1..];
    }

    /** What is left for one run of the interrupt routine when the host stays quiet. */
    ghost function Work(): nat
      reads this, dev
    {
      |dev.rxFifo| + |txQ| + (if re then 1 else 0) + (if we then 1 else 0)
    }

    /** The run has made progress that cannot go on for ever. */
    twostate predicate Progress()
      reads this, dev
    {
      dev.patience < old(dev.patience) || (dev.patience == old(dev.patience) && Work() < old(Work()))
    }

    /** Fetches bytes while the receive ring has room.  The count of bytes still available that the last
        fetch reported starts at one, since otherwise there would have been no interrupt. */
    method FetchRx() returns (ravail: nat)
      requires Rings() && dev.popped == delivered + rxQ
      modifies this`rxIn, this`rxQ, dev`rxFifo, dev`wspace, dev`ac, dev`patience, dev`popped, dev`dry, rxBuf
      ensures Rings() && dev.popped == delivered + rxQ && old(rxQ) <= rxQ
      ensures ravail > 0 ==> |rxQ| == rxBuf.Length - 1
      ensures |rxQ| == rxBuf.Length - 1 || dev.dry
      ensures dev.wspace >= old(dev.wspace)
      ensures dev.patience < old(dev.patience)
           || (dev.patience == old(dev.patience)
               && |dev.rxFifo| - |old(dev.rxFifo)| == |old(rxQ)| - |rxQ|
               && (old(dev.rxFifo) != [] && ravail == 0 ==> |rxQ| > |old(rxQ)|))
    {
      ravail := 1;
      while true
        invariant Rings() && dev.popped == delivered + rxQ && old(rxQ) <= rxQ
        invariant dev.wspace >= old(dev.wspace)
        invariant dev.patience < old(dev.patience)
               || (dev.patience == old(dev.patience)
                   && |dev.rxFifo| - |old(dev.rxFifo)| == |old(rxQ)| - |rxQ|
                   && (|rxQ| == |old(rxQ)| ==> ravail > 0))
        decreases rxBuf.Length - |rxQ|
      {
        RunBounds(rxBuf.Length, rxOut, rxIn, |rxQ|);
        WrapIsMod(rxIn + 1, rxBuf.Length);
        var next := (rxIn + 1) % rxBuf.Length;
        if next == rxOut {
          return;
        }
        var data := dev.ReadData();
        ravail := data.ravail;
        if !data.rvalid {
          return;
        }
        StoreRx(data.value);
      }
    }

    /** The read half of the interrupt routine. */
    method ServiceRx()
      requires Valid() && re && dev.rxFifo != []
      modifies this`rxIn, this`rxQ, this`re, dev, rxBuf
      ensures Valid() && Serviced() && Progress()
      ensures dev.sent == old(dev.sent) && dev.wspace >= old(dev.wspace)
      ensures |rxQ| == rxBuf.Length - 1 || dev.dry
    {
      var ravail := FetchRx();
      if ravail > 0 {
        re := false;
        dev.WriteControl(re, we, false);
        var _ := dev.ReadControl();
      }
    }

    /** Sends bytes while the device has room and the transmit ring is not empty; `left` is the unused room. */
    method DrainTx(wspace: nat) returns (left: nat)
      requires Rings() && wspace <= dev.wspace
      modifies this`txOut, this`txQ, dev`sent, dev`wspace
      ensures Rings() && left <= wspace
      ensures dev.sent + txQ == old(dev.sent + txQ) && old(dev.sent) <= dev.sent
      ensures |txQ| == |old(txQ)| - (wspace - left)
      ensures left == 0 || txQ == []
    {
      left := wspace;
      while left > 0 && txOut != txIn
        invariant Rings() && left <= wspace && left <= dev.wspace
        invariant dev.sent + txQ == old(dev.sent + txQ) && old(dev.sent) <= dev.sent
        invariant |txQ| == |old(txQ)| - (wspace - left)
        decreases left
      {
        RunBounds(txBuf.Length, txOut, txIn, |txQ|);
        SendTx();
        left := left - 1;
      }
      RunBounds(txBuf.Length, txOut, txIn, |txQ|);
    }

    /** The write half of the interrupt routine, given the WSPACE field it read. */
    method ServiceTx(wspace: nat)
      requires Valid() && we && 0 < wspace <= dev.wspace
      modifies this`txOut, this`txQ, this`we, dev
      ensures Valid() && Serviced() && Progress()
      ensures |txQ| == if |old(txQ)| < wspace then 0 else |old(txQ)| - wspace
      ensures we <==> wspace <= |old(txQ)|
    {
      var space := DrainTx(wspace);
      if space > 0 {
        we := false;
        dev.WriteControl(re, we, false);
        var _ := dev.ReadControl();
      }
    }

    /** The interrupt routine.  It returns, because every pass either uses up a host action or leaves less to do, and
        it returns only when the control register shows neither interrupt pending. */
    method Irq()
      requires Valid()
      modifies this`rxIn, this`rxQ, this`txOut, this`txQ, this`re, this`we, dev, rxBuf
      ensures Valid() && Serviced() && !dev.asked
    {
      while true
        invariant Valid() && Serviced()
        decreases dev.patience, Work()
      {
        var control := dev.ReadControl();
        if !control.ri && !control.wi {
          break;
        }
        if control.ri {
          ServiceRx();
        }
        if control.wi {
          ServiceTx(control.wspace);
        }
      }
    }

    /** The once-a-second alarm callback that watches for the host. */
    method TimeoutTick()
      requires Valid()
      modifies this`hostInactive, this`goneTicks, dev
      ensures Valid() && Serviced()
      ensures hostInactive == if dev.present then 0
                              else old(hostInactive) + (if old(hostInactive) < INT_MAX - 2 then 1 else 0)
      ensures dev.present ==> !dev.ac
    {
      var control := dev.ReadControl();
      if control.ac {
        dev.WriteControl(re, we, true);
        hostInactive := 0;
      } else if hostInactive < INT_MAX - 2 {
        hostInactive := hostInactive + 1;
        if hostInactive >= timeout {
          goneTicks := goneTicks + 1;
        }
      }
    }

    /** Any number of interrupts and alarm callbacks, each with any finite amount of host activity. */
    method Interrupts()
      requires Valid()
      modifies this`rxIn, this`rxQ, this`txOut, this`txQ, this`re, this`we, this`hostInactive, this`goneTicks, dev
      modifies rxBuf
      ensures Valid() && Serviced()
    {
      var calls: nat := *;
      while calls > 0
        invariant Valid() && Serviced()
      {
        dev.patience := *;
        var alarm: bool := *;
        if alarm {
          TimeoutTick();
        } else {
          Irq();
        }
        calls := calls - 1;
      }
    }

    // ---------------------------------------------------------------- foreground: write

    /** Copies one byte into a free place of the transmit ring; `room` places at tx_in stay free. */
    method CopyByteToTx(j: nat, b: Byte, ghost room: nat)
      requires Valid() && room <= FreeRun(txBuf.Length, txOut, txIn)
      requires txIn <= j < txIn + room && j < txBuf.Length
      modifies this`rxIn, this`rxQ, this`txOut, this`txQ, this`re, this`we, this`hostInactive, this`goneTicks, dev
      modifies rxBuf, txBuf
      ensures Valid() && Serviced()
      ensures room <= FreeRun(txBuf.Length, txOut, txIn)
      ensures txBuf[j] == b
      ensures forall i :: 0 <= i < txBuf.Length && i != j ==> txBuf[i] == old(txBuf[i])
    {
      Interrupts();
      FreeRunGrows(txBuf.Length, old(txOut), txOut, txIn, |old(txQ)|, |txQ|);
      WriteToFreePlace(txBuf[..], txOut, txIn, txQ, j, b);
      txBuf[j] := b;
      assert txBuf[..] == old(txBuf[..])[j := b];
    }

    /** Copies `xs` into the free places at tx_in, byte by byte, without publishing them. */
    method CopyToTx(xs: seq<Byte>)
      requires Valid() && |xs| <= FreeRun(txBuf.Length, txOut, txIn) && txIn + |xs| <= txBuf.Length
      modifies this`rxIn, this`rxQ, this`txOut, this`txQ, this`re, this`we, this`hostInactive, this`goneTicks, dev
      modifies rxBuf, txBuf
      ensures Valid() && Serviced()
      ensures |xs| <= FreeRun(txBuf.Length, txOut, txIn)
      ensures forall i :: 0 <= i < |xs| ==> txBuf[txIn + i] == xs[i]
    {
      var k := 0;
      while k < |xs|
        invariant k <= |xs| && Valid() && Serviced()
        invariant |xs| <= FreeRun(txBuf.Length, txOut, txIn)
        invariant forall i :: 0 <= i < k ==> txBuf[txIn + i] == xs[i]
      {
        CopyByteToTx(txIn + k, xs[k], |xs|);
        k := k + 1;
      }
    }

    /** Publishes the bytes already copied to the places at tx_in. */
    method PublishTx(xs: seq<Byte>)
      requires Valid() && 0 < |xs| <= FreeRun(txBuf.Length, txOut, txIn) && txIn + |xs| <= txBuf.Length
      requires forall i :: 0 <= i < |xs| ==> txBuf[txIn + i] == xs[i]
      modifies this`txIn, this`txQ, this`accepted, this`txOwed
      ensures Valid() && txOwed
      ensures accepted == old(accepted) + xs && txQ == old(txQ) + xs
    {
      Publish(txBuf[..], txOut, txIn, txQ, xs);
      txIn := (txIn + |xs|) % txBuf.Length;
      txQ, accepted, txOwed := txQ + xs, accepted + xs, true;
    }

    /** The transmit ring was full when `snap` bytes had been sent, and `out` was its consumer index then. */
    ghost predicate FullAt(out: nat, snap: nat)
      reads this, dev
    {
      && out < txBuf.Length
      && snap <= |dev.sent|
      && |accepted| - snap == txBuf.Length - 1
      && txIn == Wrap(out + txBuf.Length - 1, txBuf.Length)
    }

    /** Reads both indices and computes how many places can be filled without wrapping. */
    method TxRoom() returns (n: nat, out: nat, ghost snap: nat)
      requires Valid()
      modifies this`rxIn, this`rxQ, this`txOut, this`txQ, this`re, this`we, this`hostInactive, this`goneTicks, dev
      modifies rxBuf
      ensures Valid() && Serviced()
      ensures n == FreeRun(txBuf.Length, txOut, txIn) && snap == |dev.sent|
      ensures n == 0 ==> FullAt(out, snap)
      ensures n == 0 <==> |txQ| == txBuf.Length - 1
      ensures txIn + n <= txBuf.Length
    {
      Interrupts();
      var inn := txIn;
      Interrupts();
      out := txOut;
      snap := |dev.sent|;
      RunBounds(txBuf.Length, txOut, txIn, |txQ|);
      if inn < out {
        n := out - 1 - inn;
      } else if out > 0 {
        n := txBuf.Length - inn;
      } else {
        n := txBuf.Length - 1 - inn;
      }
    }

    /** Copies `xs` to the free places at tx_in and then publishes them. */
    method Append(xs: seq<Byte>)
      requires Valid() && 0 < |xs| <= FreeRun(txBuf.Length, txOut, txIn) && txIn + |xs| <= txBuf.Length
      modifies this`rxIn, this`rxQ, this`txOut, this`txQ, this`re, this`we, this`hostInactive, this`goneTicks
      modifies this`txIn, this`accepted, this`txOwed, dev, rxBuf, txBuf
      ensures Valid() && Serviced() && txOwed
      ensures accepted == old(accepted) + xs
    {
      CopyToTx(xs);
      label Copied:
      Interrupts();
      FreeRunGrows(txBuf.Length, old@Copied(txOut), txOut, txIn, |old@Copied(txQ)|, |txQ|);
      PublishTx(xs);
    }

    /** One pass of the inner copy loop: takes as many leading bytes of `xs` as fit without wrapping. */
    method FillOnce(xs: seq<Byte>) returns (n: nat, out: nat, ghost snap: nat)
      requires Valid() && xs != []
      modifies this`rxIn, this`rxQ, this`txOut, this`txQ, this`re, this`we, this`hostInactive, this`goneTicks
      modifies this`txIn, this`accepted, this`txOwed, dev, rxBuf, txBuf
      ensures Valid() && Serviced()
      ensures n <= |xs| && accepted == old(accepted) + xs[..n]
      ensures txOwed == (old(txOwed) || n > 0)
      ensures |old(dev.sent)| <= snap
      ensures n == 0 ==> FullAt(out, snap)
      ensures |old(txQ)| < txBuf.Length - 1 ==> n > 0
    {
      n, out, snap := TxRoom();
      if n > 0 {
        if n > |xs| {
          n := |xs|;
        }
        Append(xs[..n]);
      }
    }

    /** The inner copy loop: takes bytes until none are left or the ring is full. */
    method Fill(xs: seq<Byte>) returns (moved: nat, out: nat, ghost snap: nat)
      requires Valid()
      modifies this`rxIn, this`rxQ, this`txOut, this`txQ, this`re, this`we, this`hostInactive, this`goneTicks
      modifies this`txIn, this`accepted, this`txOwed, dev, rxBuf, txBuf
      ensures Valid() && Serviced()
      ensures moved <= |xs| && accepted == old(accepted) + xs[..moved]
      ensures txOwed == (old(txOwed) || moved > 0)
      ensures moved < |xs| ==> |old(dev.sent)| <= snap && FullAt(out, snap)
      ensures |old(txQ)| < txBuf.Length - 1 && xs != [] ==> moved > 0
    {
      moved, out, snap := 0, 0, 0;
      while moved < |xs|
        invariant Valid() && Serviced()
        invariant moved <= |xs| && accepted == old(accepted) + xs[..moved]
        invariant txOwed == (old(txOwed) || moved > 0)
        invariant moved == 0 ==> |txQ| <= |old(txQ)|
        decreases |xs| - moved
      {
        var n;
        n, out, snap := FillOnce(xs[moved..]);
        if n == 0 {
          return;
        }
        assert xs[..moved] + xs[moved..][..n] == xs[..moved + n];
        moved := moved + n;
      }
    }

    /** Sets WE with interrupts disabled, so that the interrupt routine comes round for the new bytes. */
    method EnableTx()
      requires Valid()
      modifies this`we, this`txOwed, dev`re, dev`we, dev`ac
      ensures Valid() && we && !txOwed
    {
      we := true;
      dev.WriteControl(re, we, false);
      txOwed := false;
    }

    /** Reads tx_out once more.  It differs from the snapshot exactly when a byte has left the ring since the
        ring was full. */
    method TxMoved(out: nat, ghost snap: nat) returns (moved: bool)
      requires Valid() && FullAt(out, snap)
      modifies this`rxIn, this`rxQ, this`txOut, this`txQ, this`re, this`we, this`hostInactive, this`goneTicks, dev
      modifies rxBuf
      ensures Valid() && Serviced() && FullAt(out, snap)
      ensures moved <==> txOut != out
      ensures moved <==> |dev.sent| > snap
      ensures moved <==> |txQ| < txBuf.Length - 1
    {
      Interrupts();
      IndexTellsMovement(txBuf.Length, out, txOut, txIn, txBuf.Length - 1, |txQ|);
      moved := out != txOut;
    }

    /** The test of the wait loop: a byte has left the full ring, or the host is considered gone. */
    method RoomTest(out: nat, ghost snap: nat) returns (over: bool)
      requires Valid() && FullAt(out, snap)
      modifies this`rxIn, this`rxQ, this`txOut, this`txQ, this`re, this`we, this`hostInactive, this`goneTicks, dev
      modifies rxBuf
      ensures Valid() && Serviced() && FullAt(out, snap)
      ensures over ==> |txQ| < txBuf.Length - 1 || hostInactive >= timeout
      ensures !over ==> hostInactive < timeout
      ensures |old(txQ)| < txBuf.Length - 1 ==> over
    {
      over := TxMoved(out, snap);
      if !over {
        Interrupts();
        over := hostInactive >= timeout;
      }
    }

    /** Spins until tx_out leaves `out` or the host is considered gone.  Unless the host is gone there is room
        afterwards, so the next copy pass moves a byte.  While the call waits WE stays set as long as the ring
        holds a byte, so the interrupt it waits for stays enabled.  `spins` bounds the turns observed. */
    method WaitForRoom(out: nat, ghost snap: nat, spins: nat) returns (left: nat, waiting: bool)
      requires Valid() && !txOwed && FullAt(out, snap)
      modifies this`rxIn, this`rxQ, this`txOut, this`txQ, this`re, this`we, this`hostInactive, this`goneTicks
      modifies this`turns, dev
      modifies rxBuf
      ensures Valid() && Serviced()
      ensures waiting ==> we || txQ == []
      ensures waiting && spins > 0 ==> hostInactive < timeout
      ensures !waiting ==> |txQ| < txBuf.Length - 1 || hostInactive >= timeout
      ensures spins > 0 && |old(txQ)| < txBuf.Length - 1 ==> !waiting
      ensures left <= spins && turns == old(turns) + spins - left && (waiting ==> left == 0)
      ensures left < spins || waiting
    {
      left := spins;
      while left > 0
        invariant Valid() && Serviced() && FullAt(out, snap) && left <= spins
        invariant turns == old(turns) + spins - left
        invariant left == spins || (|old(txQ)| >= txBuf.Length - 1 && hostInactive < timeout)
      {
        left, turns := left - 1, turns + 1;
        var over := RoomTest(out, snap);
        if over {
          return left, false;
        }
      }
      waiting := true;
    }

    /** Waits for room and decides how the turn ends. */
    method WaitTurn(out: nat, ghost snap: nat, spins: nat) returns (left: nat, next: Turn)
      requires Valid() && !txOwed && FullAt(out, snap)
      modifies this`rxIn, this`rxQ, this`txOut, this`txQ, this`re, this`we, this`hostInactive, this`goneTicks
      modifies this`turns, dev
      modifies rxBuf
      ensures Valid() && Serviced()
      ensures left <= spins && turns == old(turns) + spins - left && (next == Spinning ==> left == 0)
      ensures next == Again ==> left < spins && hostInactive == 0 && (|txQ| < txBuf.Length - 1 || HostGone())
      ensures next == Stop ==> hostInactive > 0
    {
      var waiting;
      left, waiting := WaitForRoom(out, snap, spins);
      if waiting {
        return left, Spinning;
      }
      Interrupts();
      next := if hostInactive > 0 then Stop else Again;
    }

    /** The first half of a turn: fill the ring and set WE. */
    method FillAndEnable(xs: seq<Byte>) returns (moved: nat, out: nat, ghost snap: nat)
      requires Valid() && !txOwed
      modifies this`rxIn, this`rxQ, this`txOut, this`txQ, this`re, this`we, this`hostInactive, this`goneTicks
      modifies this`txIn, this`accepted, this`txOwed, dev, rxBuf, txBuf
      ensures Valid() && Serviced() && !txOwed
      ensures moved <= |xs| && accepted == old(accepted) + xs[..moved]
      ensures moved < |xs| ==> |old(dev.sent)| <= snap && FullAt(out, snap)
    {
      moved, out, snap := 0, 0, 0;
      if |xs| > 0 {
        moved, out, snap := Fill(xs);
      }
      Interrupts();
      EnableTx();
    }

    /** One turn of the outer loop: fill the ring, set WE, and if bytes are left over wait for room. */
    method WriteTurn(xs: seq<Byte>, nonblock: bool, spins: nat) returns (moved: nat, left: nat, next: Turn)
      requires Valid() && !txOwed
      modifies this`rxIn, this`rxQ, this`txOut, this`txQ, this`re, this`we, this`hostInactive, this`goneTicks
      modifies this`turns
      modifies this`txIn, this`accepted, this`txOwed, dev, rxBuf, txBuf
      ensures Valid() && Serviced() && !txOwed
      ensures moved <= |xs| && accepted == old(accepted) + xs[..moved]
      ensures moved < |xs| ==> |old(txQ)| + moved >= txBuf.Length - 1
      ensures left <= spins && turns == old(turns) + spins - left && (next == Spinning ==> left == 0)
      ensures next == Again ==> moved < |xs| && left < spins && hostInactive == 0
      ensures next == Spinning ==> moved < |xs| && !nonblock
      ensures next == Stop && moved < |xs| && !nonblock ==> hostInactive > 0
    {
      var out;
      ghost var snap;
      moved, out, snap := FillAndEnable(xs);
      left, next := spins, Stop;
      if |xs| - moved > 0 && !nonblock {
        left, next := WaitTurn(out, snap, spins);
      }
    }

    /** The outer loop of `Write`: `ptr` is the number of leading bytes of `xs` accepted. */
    method WriteTurns(xs: seq<Byte>, nonblock: bool, spins: nat) returns (ptr: nat, waiting: bool)
      requires Valid() && !txOwed
      modifies this`rxIn, this`rxQ, this`txOut, this`txQ, this`re, this`we, this`hostInactive, this`goneTicks
      modifies this`turns
      modifies this`txIn, this`accepted, this`txOwed, dev, rxBuf, txBuf
      ensures Valid() && Serviced() && !txOwed
      ensures ptr <= |xs| && accepted == old(accepted) + xs[..ptr]
      ensures waiting ==> ptr < |xs| && !nonblock && turns == old(turns) + spins
      ensures ptr < |xs| ==> |old(txQ)| + ptr >= txBuf.Length - 1
      ensures ptr < |xs| && !nonblock && !waiting ==> hostInactive > 0
    {
      ptr := 0;
      var fuel: nat := spins;
      while true
        invariant Valid() && Serviced() && !txOwed
        invariant ptr <= |xs| && accepted == old(accepted) + xs[..ptr]
        invariant |txQ| <= |old(txQ)| + ptr
        invariant fuel <= spins && turns == old(turns) + spins - fuel
        decreases fuel
      {
        var moved, next;
        moved, fuel, next := WriteTurn(xs[ptr..], nonblock, fuel);
        assert xs[..ptr] + xs[ptr..][..moved] == xs[..ptr + moved];
        ptr := ptr + moved;
        if next != Again {
          return ptr, next == Spinning;
        }
      }
    }

    /** Sends `src[..count]` to the host: blocks while the ring is full unless told not to, and gives up when
        the host is inactive.  A positive result is the number of leading bytes accepted, in order and exactly
        once; an error means that none was.  A call that accepts less than everything has met a full ring. */
    method Write(src: seq<Byte>, count: int, nonblock: bool, spins: nat) returns (r: WriteResult)
      requires count <= |src|
      requires Valid() && !txOwed
      modifies this`rxIn, this`rxQ, this`txOut, this`txQ, this`re, this`we, this`hostInactive, this`goneTicks
      modifies this`turns
      modifies this`txIn, this`accepted, this`txOwed, dev, rxBuf, txBuf
      ensures Valid() && Serviced() && !txOwed
      ensures Taken(r) <= |src| && accepted == old(accepted) + src[..Taken(r)]
      ensures r.Written? ==> 0 < r.n <= count
      ensures r.WriteStillWaiting? ==> r.n < count && !nonblock
      ensures r.WriteStillWaiting? ==> turns == old(turns) + spins
      ensures r.WriteWouldBlock? ==> nonblock
      ensures r.WriteIoError? ==> !nonblock
      ensures Taken(r) < count ==> |old(txQ)| + Taken(r) >= txBuf.Length - 1
      ensures Taken(r) < count && !nonblock && !r.WriteStillWaiting? ==> hostInactive > 0
    {
      var n: nat := if count > 0 then count else 0;
      var ptr, waiting := WriteTurns(src[..n], nonblock, spins);
      assert src[..n][..ptr] == src[..ptr];
      if waiting {
        return WriteStillWaiting(ptr);
      } else if ptr != 0 {
        return Written(ptr);
      } else if nonblock {
        return WriteWouldBlock;
      } else {
        return WriteIoError;
      }
    }

    // ---------------------------------------------------------------- foreground: read

    /** Copies the k-th stored byte to place `i` of the caller's buffer. */
    method CopyByteFromRx(buffer: array<Byte>, i: nat, k: nat)
      requires Valid() && buffer != rxBuf && buffer != txBuf
      requires i < buffer.Length && k < StoredRun(rxBuf.Length, rxOut, rxIn) && k < |rxQ|
      modifies this`rxIn, this`rxQ, this`txOut, this`txQ, this`re, this`we, this`hostInactive, this`goneTicks, dev
      modifies rxBuf, buffer
      ensures Valid() && Serviced()
      ensures buffer[i] == old(rxQ)[k]
      ensures forall j :: 0 <= j < buffer.Length && j != i ==> buffer[j] == old(buffer[j])
      ensures StoredRun(rxBuf.Length, rxOut, rxIn) >= old(StoredRun(rxBuf.Length, rxOut, rxIn))
    {
      Interrupts();
      StoredRunGrows(rxBuf.Length, rxOut, old(rxIn), rxIn, |old(rxQ)|, |rxQ|);
      Consume(rxBuf[..], rxOut, rxIn, rxQ, k + 1);
      buffer[i] := rxBuf[rxOut + k];
    }

    /** Copies the first n stored bytes to the caller's buffer without releasing their places. */
    method CopyFromRx(buffer: array<Byte>, at: nat, n: nat)
      requires Valid() && buffer != rxBuf && buffer != txBuf
      requires at + n <= buffer.Length && n <= StoredRun(rxBuf.Length, rxOut, rxIn) && n <= |rxQ|
      modifies this`rxIn, this`rxQ, this`txOut, this`txQ, this`re, this`we, this`hostInactive, this`goneTicks, dev
      modifies rxBuf, buffer
      ensures Valid() && Serviced()
      ensures n <= StoredRun(rxBuf.Length, rxOut, rxIn)
      ensures forall j :: at <= j < at + n ==> buffer[j] == old(rxQ)[j - at]
      ensures forall j :: 0 <= j < buffer.Length && !(at <= j < at + n) ==> buffer[j] == old(buffer[j])
    {
      var k := 0;
      while k < n
        invariant k <= n && Valid() && Serviced()
        invariant n <= StoredRun(rxBuf.Length, rxOut, rxIn)
        invariant forall j :: at <= j < at + k ==> buffer[j] == old(rxQ)[j - at]
        invariant forall j :: 0 <= j < buffer.Length && !(at <= j < at + k) ==> buffer[j] == old(buffer[j])
      {
        CopyByteFromRx(buffer, at + k, k);
        k := k + 1;
      }
    }

    /** Releases the places of the n oldest bytes by publishing the consumer's index. */
    method ReleaseRx(n: nat)
      requires Valid() && 0 < n <= StoredRun(rxBuf.Length, rxOut, rxIn) && n <= |rxQ|
      modifies this`rxOut, this`rxQ, this`delivered, this`rxOwed
      ensures Valid() && rxOwed
      ensures delivered == old(delivered) + old(rxQ)[..n] && rxQ == old(rxQ)[n..]
    {
      Consume(rxBuf[..], rxOut, rxIn, rxQ, n);
      rxOut := (rxOut + n) % rxBuf.Length;
      delivered, rxQ, rxOwed := delivered + rxQ[..n], rxQ[n..], true;
    }

    /** The receive ring was empty when `snap` bytes had been popped, and `inn` was its producer index then. */
    ghost predicate EmptyAt(inn: nat, snap: nat)
      reads this
    {
      inn == rxOut && snap == |delivered|
    }

    /** Reads both indices and computes how many bytes can be taken without wrapping. */
    method RxAvailable() returns (n: nat, inn: nat, ghost snap: nat)
      requires Valid()
      modifies this`rxIn, this`rxQ, this`txOut, this`txQ, this`re, this`we, this`hostInactive, this`goneTicks, dev
      modifies rxBuf
      ensures Valid() && Serviced()
      ensures n <= StoredRun(rxBuf.Length, rxOut, rxIn) && n <= |rxQ| && snap <= |dev.popped|
      ensures n == 0 ==> EmptyAt(inn, snap) && old(rxQ) == []
    {
      Interrupts();
      inn := rxIn;
      snap := |dev.popped|;
      RunBounds(rxBuf.Length, rxOut, rxIn, |rxQ|);
      ghost var stored := |rxQ|;
      Interrupts();
      var out := rxOut;
      StoredRunGrows(rxBuf.Length, rxOut, inn, rxIn, stored, |rxQ|);
      n := if inn >= out then inn - out else rxBuf.Length - out;
    }

    /** Copies the n oldest bytes to the caller's buffer and then releases their places. */
    method TakeRun(buffer: array<Byte>, at: nat, n: nat)
      requires Valid() && buffer != rxBuf && buffer != txBuf
      requires at + n <= buffer.Length && 0 < n <= StoredRun(rxBuf.Length, rxOut, rxIn) && n <= |rxQ|
      modifies this`rxIn, this`rxQ, this`txOut, this`txQ, this`re, this`we, this`hostInactive, this`goneTicks
      modifies this`rxOut, this`delivered, this`rxOwed, dev, rxBuf, buffer
      ensures Valid() && Watched() && old(dev.sent) <= dev.sent && rxOwed
      ensures delivered == old(delivered) + old(rxQ)[..n]
      ensures forall j :: at <= j < at + n ==> buffer[j] == old(rxQ)[j - at]
      ensures forall j :: 0 <= j < buffer.Length && !(at <= j < at + n) ==> buffer[j] == old(buffer[j])
    {
      CopyFromRx(buffer, at, n);
      Interrupts();
      StoredRunGrows(rxBuf.Length, rxOut, old(rxIn), rxIn, |old(rxQ)|, |rxQ|);
      ReleaseRx(n);
    }

    /** One pass of the inner loop: moves up to `room` bytes to the caller's buffer at `at`. */
    method TakeOnce(buffer: array<Byte>, at: nat, room: nat)
      returns (n: nat, inn: nat, ghost snap: nat, ghost xs: seq<Byte>)
      requires Valid() && buffer != rxBuf && buffer != txBuf
      requires 0 < room && at + room <= buffer.Length
      modifies this`rxIn, this`rxQ, this`txOut, this`txQ, this`re, this`we, this`hostInactive, this`goneTicks
      modifies this`rxOut, this`delivered, this`rxOwed, dev, rxBuf, buffer
      ensures Valid() && Watched() && old(dev.sent) <= dev.sent
      ensures n <= room && |xs| == n && delivered == old(delivered) + xs
      ensures forall j :: at <= j < at + n ==> buffer[j] == xs[j - at]
      ensures forall j :: 0 <= j < buffer.Length && !(at <= j < at + n) ==> buffer[j] == old(buffer[j])
      ensures rxOwed == (old(rxOwed) || n > 0)
      ensures n == 0 ==> EmptyAt(inn, snap)
      ensures old(rxQ) != [] ==> n > 0
    {
      n, inn, snap := RxAvailable();
      xs := [];
      if n > 0 {
        if n > room {
          n := room;
        }
        xs := rxQ[..n];
        TakeRun(buffer, at, n);
      }
    }

    /** The inner loop: moves bytes until the caller's buffer is full or the ring is empty. */
    method Take(buffer: array<Byte>, space: nat) returns (n: nat, inn: nat, ghost snap: nat)
      requires Valid() && buffer != rxBuf && buffer != txBuf
      requires 0 < space <= buffer.Length
      modifies this`rxIn, this`rxQ, this`txOut, this`txQ, this`re, this`we, this`hostInactive, this`goneTicks
      modifies this`rxOut, this`delivered, this`rxOwed, dev, rxBuf, buffer
      ensures Valid() && Watched() && old(dev.sent) <= dev.sent
      ensures n <= space && delivered == old(delivered) + buffer[..n]
      ensures forall j :: n <= j < buffer.Length ==> buffer[j] == old(buffer[j])
      ensures rxOwed == (old(rxOwed) || n > 0)
      ensures n == 0 ==> EmptyAt(inn, snap)
      ensures old(rxQ) != [] ==> n > 0
    {
      n, inn, snap := 0, 0, 0;
      while true
        invariant Valid() && Watched() && old(dev.sent) <= dev.sent
        invariant n < space && delivered == old(delivered) + buffer[..n]
        invariant forall j :: n <= j < buffer.Length ==> buffer[j] == old(buffer[j])
        invariant rxOwed == (old(rxOwed) || n > 0)
        invariant n == 0 ==> old(rxQ) <= rxQ
        decreases space - n
      {
        ghost var sofar := buffer[..n];
        var m;
        ghost var xs;
        m, inn, snap, xs := TakeOnce(buffer, n, space - n);
        assert buffer[..n + m] == sofar + xs;
        n := n + m;
        if m == 0 || n == space {
          return;
        }
      }
    }

    /** Sets RE with interrupts disabled: there is room in the receive ring again. */
    method EnableRx()
      requires Valid()
      modifies this`re, this`rxOwed, dev`re, dev`we, dev`ac
      ensures Valid() && re && !rxOwed
    {
      re := true;
      dev.WriteControl(re, we, false);
      rxOwed := false;
    }

    /** Reads rx_in once more.  It differs from the snapshot exactly when a byte has arrived since the ring
        was empty. */
    method RxMoved(inn: nat, ghost snap: nat) returns (moved: bool)
      requires Valid() && EmptyAt(inn, snap)
      modifies this`rxIn, this`rxQ, this`txOut, this`txQ, this`re, this`we, this`hostInactive, this`goneTicks, dev
      modifies rxBuf
      ensures Valid() && Serviced()
      ensures moved <==> rxIn != inn
      ensures moved <==> |dev.popped| > snap
      ensures moved <==> rxQ != []
    {
      Interrupts();
      RunBounds(rxBuf.Length, rxOut, rxIn, |rxQ|);
      moved := inn != rxIn;
    }

    /** Spins until rx_in leaves `inn` or the host is considered gone.  While the call waits and the ring is
        empty RE stays set, so the interrupt it waits for stays enabled. */
    method WaitForData(inn: nat, ghost snap: nat, spins: nat) returns (left: nat, waiting: bool)
      requires Valid() && !rxOwed && EmptyAt(inn, snap)
      modifies this`rxIn, this`rxQ, this`txOut, this`txQ, this`re, this`we, this`hostInactive, this`goneTicks
      modifies this`turns, dev
      modifies rxBuf
      ensures Valid() && Serviced()
      ensures waiting && rxQ == [] ==> re
      ensures waiting && spins > 0 ==> hostInactive < timeout
      ensures !waiting ==> rxQ != [] || HostGone()
      ensures spins > 0 && old(rxQ) != [] ==> !waiting
      ensures left <= spins && turns == old(turns) + spins - left && (waiting ==> left == 0)
      ensures left < spins || waiting
    {
      left := spins;
      while left > 0
        invariant Valid() && Serviced() && left <= spins
        invariant turns == old(turns) + spins - left
        invariant left == spins || (old(rxQ) == [] && hostInactive < timeout)
      {
        left, turns := left - 1, turns + 1;
        var moved := RxMoved(inn, snap);
        if moved {
          return left, false;
        }
        Interrupts();
        if hostInactive >= timeout {
          return left, false;
        }
      }
      waiting := true;
    }

    /** Waits for a byte and decides how the turn ends. */
    method DataTurn(inn: nat, ghost snap: nat, spins: nat) returns (left: nat, next: Turn)
      requires Valid() && !rxOwed && EmptyAt(inn, snap)
      modifies this`rxIn, this`rxQ, this`txOut, this`txQ, this`re, this`we, this`hostInactive, this`goneTicks
      modifies this`turns, dev
      modifies rxBuf
      ensures Valid() && Serviced()
      ensures left <= spins && turns == old(turns) + spins - left && (next == Spinning ==> left == 0)
      ensures next == Again ==> left < spins && rxQ != []
      ensures next == Stop ==> rxQ == [] && HostGone()
    {
      var waiting;
      left, waiting := WaitForData(inn, snap, spins);
      if waiting {
        return left, Spinning;
      }
      var moved := RxMoved(inn, snap);
      next := if moved then Again else Stop;
    }

    /** The outer loop of `Read`: takes bytes, and waits for some as long as there are none and it may. */
    method TakeOrWait(buffer: array<Byte>, space: nat, nonblock: bool, spins: nat) returns (n: nat, waiting: bool)
      requires buffer != rxBuf && buffer != txBuf && 0 < space <= buffer.Length
      requires Valid() && !rxOwed
      modifies this`rxIn, this`rxQ, this`txOut, this`txQ, this`re, this`we, this`hostInactive, this`goneTicks
      modifies this`turns
      modifies this`rxOut, this`delivered, this`rxOwed, dev, rxBuf, buffer
      ensures Valid() && Watched() && old(dev.sent) <= dev.sent && rxOwed == (n > 0)
      ensures n <= space && delivered == old(delivered) + buffer[..n]
      ensures forall j :: n <= j < buffer.Length ==> buffer[j] == old(buffer[j])
      ensures waiting ==> n == 0 && !nonblock && turns == old(turns) + spins
      ensures old(rxQ) != [] ==> n > 0
      ensures n == 0 && !nonblock && !waiting ==> rxQ == [] && HostGone()
    {
      n, waiting := 0, false;
      var fuel: nat := spins;
      while true
        invariant Valid() && Serviced() && !rxOwed && n == 0 && delivered == old(delivered)
        invariant forall j :: 0 <= j < buffer.Length ==> buffer[j] == old(buffer[j])
        invariant old(rxQ) <= rxQ && fuel <= spins && turns == old(turns) + spins - fuel
        decreases fuel
      {
        var inn;
        ghost var snap;
        n, inn, snap := Take(buffer, space);
        if n > 0 || nonblock {
          return;
        }
        var next;
        fuel, next := DataTurn(inn, snap, fuel);
        if next != Again {
          return n, next == Spinning;
        }
      }
    }

    /** Receives up to `space` bytes: blocks while there are none unless told not to, and gives up when none
        has come by the time the host is considered gone.  A positive result n says that the first n places
        of the buffer hold the next n bytes of the stream, and that the rest of the buffer is as it was. */
    method Read(buffer: array<Byte>, space: int, nonblock: bool, spins: nat) returns (r: ReadResult)
      requires buffer != rxBuf && buffer != txBuf && space <= buffer.Length
      requires Valid() && !rxOwed
      modifies this`rxIn, this`rxQ, this`txOut, this`txQ, this`re, this`we, this`hostInactive, this`goneTicks
      modifies this`turns
      modifies this`rxOut, this`delivered, this`rxOwed, dev, rxBuf, buffer
      ensures Valid() && Watched() && old(dev.sent) <= dev.sent && !rxOwed
      ensures r.Got? ==> 0 < r.n <= space && re && delivered == old(delivered) + buffer[..r.n]
      ensures !r.Got? ==> delivered == old(delivered)
      ensures forall j :: (if r.Got? then r.n else 0) <= j < buffer.Length ==> buffer[j] == old(buffer[j])
      ensures r.ReadStillWaiting? ==> turns == old(turns) + spins
      ensures r.ReadWouldBlock? ==> nonblock
      ensures r.ReadIoError? || r.ReadStillWaiting? ==> !nonblock
      ensures space <= 0 ==> r == if nonblock then ReadWouldBlock else ReadIoError
      ensures old(rxQ) != [] && space > 0 ==> r.Got?
      ensures r.ReadIoError? && space > 0 ==> rxQ == [] && HostGone()
    {
      var n, waiting := 0, false;
      if space > 0 {
        n, waiting := TakeOrWait(buffer, space, nonblock, spins);
      }
      if n > 0 {
        Interrupts();
        EnableRx();
        return Got(n);
      } else if waiting {
        return ReadStillWaiting;
      } else if nonblock {
        return ReadWouldBlock;
      } else {
        return ReadIoError;
      }
    }

    // ---------------------------------------------------------------- close

    /** Compares the two indices of the transmit ring, each read on its own. */
    method TxDrained() returns (drained: bool)
      requires Valid()
      modifies this`rxIn, this`rxQ, this`txOut, this`txQ, this`re, this`we, this`hostInactive, this`goneTicks, dev
      modifies rxBuf
      ensures Valid() && Serviced()
      ensures drained ==> dev.sent == accepted
      ensures old(txQ) == [] ==> drained
      ensures !drained ==> |old(dev.sent)| < |accepted|
    {
      Interrupts();
      var out := txOut;
      RunBounds(txBuf.Length, txOut, txIn, |txQ|);
      Interrupts();
      drained := out == txIn;
    }

    /** The test of the wait loop: the ring has drained, or the host is considered gone. */
    method CloseTest() returns (over: bool)
      requires Valid()
      modifies this`rxIn, this`rxQ, this`txOut, this`txQ, this`re, this`we, this`hostInactive, this`goneTicks, dev
      modifies rxBuf
      ensures Valid() && Serviced()
      ensures over ==> dev.sent == accepted || hostInactive >= timeout
      ensures !over ==> hostInactive < timeout
      ensures old(txQ) == [] ==> over
      ensures !over ==> |old(dev.sent)| < |accepted|
    {
      over := TxDrained();
      if !over {
        Interrupts();
        over := hostInactive >= timeout;
      }
    }

    /** Between two calls the indices delimit what the queues say, bytes left to send leave the device's write
        interrupt enabled, and a place left in the receive ring its read interrupt. */
    lemma BetweenCalls()
      requires Valid() && !txOwed && !rxOwed
      ensures txIn < txBuf.Length && txOut < txBuf.Length && rxIn < rxBuf.Length && rxOut < rxBuf.Length
      ensures accepted == dev.sent + Contents(txBuf[..], txOut, txIn)
      ensures dev.popped == delivered + Contents(rxBuf[..], rxOut, rxIn)
      ensures txIn != txOut ==> dev.we
      ensures (rxIn + 1) % rxBuf.Length != rxOut ==> dev.re
    {
      HoldsContents(txBuf[..], txOut, txIn, txQ);
      HoldsContents(rxBuf[..], rxOut, rxIn, rxQ);
      RunBounds(txBuf.Length, txOut, txIn, |txQ|);
      RunBounds(rxBuf.Length, rxOut, rxIn, |rxQ|);
      WrapIsMod(rxIn + 1, rxBuf.Length);
    }

    /** Waits until the transmit ring has drained or the host is considered gone. */
    method Close(nonblock: bool, spins: nat) returns (r: CloseResult)
      requires Valid() && !txOwed
      modifies this`rxIn, this`rxQ, this`txOut, this`txQ, this`re, this`we, this`hostInactive, this`goneTicks
      modifies this`turns, dev
      modifies rxBuf
      ensures Valid() && Serviced()
      ensures r.Closed? ==> dev.sent == accepted || hostInactive >= timeout
      ensures r.CloseWouldBlock? ==> nonblock && |old(dev.sent)| < |accepted| && hostInactive < timeout
      ensures r.CloseStillWaiting? ==> !nonblock && (we || txQ == [])
      ensures r.CloseStillWaiting? ==> turns == old(turns) + spins && (spins > 0 ==> hostInactive < timeout)
      ensures (spins > 0 || nonblock) && old(txQ) == [] ==> r.Closed?
    {
      var left: nat := spins;
      while true
        invariant Valid() && Serviced() && left <= spins
        invariant turns == old(turns) + spins - left
        invariant |txQ| <= |old(txQ)| && (left == spins || (old(txQ) != [] && hostInactive < timeout))
        decreases left
      {
        if left == 0 && !nonblock {
          return CloseStillWaiting;
        }
        var over := CloseTest();
        if over {
          return Closed;
        }
        if nonblock {
          return CloseWouldBlock;
        }
        left, turns := left - 1, turns + 1;
      }
    }
  }

  // ------------------------------------------------------------------ whole runs

  /** One call made by the foreground program. */
  datatype Call = CallWrite(src: seq<Byte>, nonblock: bool) | CallRead(space: nat, nonblock: bool) | CallClose(nonblock: bool)

  /** What a call reports, with the bytes a read call returns. */
  datatype Outcome = Wrote(w: WriteResult) | HasRead(r: ReadResult, bytes: seq<Byte>) | HasClosed(c: CloseResult)

  predicate Waits(o: Outcome) {
    match o
    case Wrote(w) => w.WriteStillWaiting?
    case HasRead(r, _) => r.ReadStillWaiting?
    case HasClosed(c) => c.CloseStillWaiting?
  }

  /** An outcome is one of its call: a write accepts a prefix, everything if it is told to block and the host stays; a
      read returns bytes only with a positive result, as many as that says; only blocking calls wait. */
  predicate Fits(c: Call, o: Outcome) {
    match c
    case CallWrite(src, nonblock) =>
      o.Wrote? && Taken(o.w) <= |src| && (o.w.Written? ==> o.w.n > 0)
      && (if nonblock then !Waits(o) && !o.w.WriteIoError? else !o.w.WriteWouldBlock?)
    case CallRead(space, nonblock) =>
      o.HasRead? && |o.bytes| == (if o.r.Got? then o.r.n else 0) <= space && (o.r.Got? ==> o.r.n > 0)
      && (if nonblock then !Waits(o) && !o.r.ReadIoError? else !o.r.ReadWouldBlock?)
    case CallClose(nonblock) =>
      o.HasClosed? && if nonblock then !Waits(o) else !o.c.CloseWouldBlock?
  }

  /** The bytes that a call reports as written. */
  function Accepted(c: Call, o: Outcome): seq<Byte>
    requires Fits(c, o)
  {
    if c.CallWrite? then c.src[..Taken(o.w)] else []
  }

  function Returned(o: Outcome): seq<Byte> {
    if o.HasRead? then o.bytes else []
  }

  predicate AllFit(calls: seq<Call>, os: seq<Outcome>) {
    |os| <= |calls| && forall i :: 0 <= i < |os| ==> Fits(calls[i], os[i])
  }

  function AllAccepted(calls: seq<Call>, os: seq<Outcome>): seq<Byte>
    requires AllFit(calls, os)
  {
    if os == [] then [] else AllAccepted(calls, os[..|os| - 1]) + Accepted(calls[|os| - 1], os[|os| - 1])
  }

  function AllReturned(os: seq<Outcome>): seq<Byte> {
    if os == [] then [] else AllReturned(os[..|os| - 1]) + Returned(os[|os| - 1])
  }

  lemma OneMoreOutcome(calls: seq<Call>, os: seq<Outcome>, o: Outcome)
    requires AllFit(calls, os) && |os| < |calls| && Fits(calls[|os|], o)
    ensures AllFit(calls, os + [o])
    ensures AllAccepted(calls, os + [o]) == AllAccepted(calls, os) + Accepted(calls[|os|], o)
    ensures AllReturned(os + [o]) == AllReturned(os) + Returned(o)
  {
    assert (os + [o])[..|os|] == os;
  }

  /** One call, after any interrupts.  It accepts less than everything only on a full ring, and a blocking write that
      does not wait any longer then only with host_inactive set; a read call returns stored bytes. */
  method Perform(uart: Uart, call: Call, spins: nat) returns (o: Outcome)
    requires uart.Valid() && !uart.txOwed && !uart.rxOwed
    modifies uart, uart.dev, uart.rxBuf, uart.txBuf
    ensures uart.Valid() && !uart.txOwed && !uart.rxOwed && Fits(call, o)
    ensures uart.accepted == old(uart.accepted) + Accepted(call, o)
    ensures uart.delivered == old(uart.delivered) + Returned(o)
    ensures call.CallWrite? && Taken(o.w) < |call.src| ==> |old(uart.txQ)| + Taken(o.w) >= uart.txBuf.Length - 1
    ensures call.CallWrite? && Taken(o.w) < |call.src| && !call.nonblock && !Waits(o) ==> uart.hostInactive > 0
    ensures call.CallRead? && call.space > 0 && old(uart.rxQ) != [] ==> o.r.Got?
    ensures o.HasClosed? && o.c.Closed? ==> uart.dev.sent == uart.accepted || uart.hostInactive >= uart.timeout
    ensures uart.turns >= old(uart.turns) && (Waits(o) ==> uart.turns == old(uart.turns) + spins)
  {
    uart.Interrupts();
    match call {
      case CallWrite(src, nonblock) =>
        var r := uart.Write(src, |src|, nonblock, spins);
        o := Wrote(r);
      case CallRead(space, nonblock) =>
        var buffer := new Byte[space];
        var r := uart.Read(buffer, space, nonblock, spins);
        o := HasRead(r, if r.Got? then buffer[..r.n] else []);
      case CallClose(nonblock) =>
        var r := uart.Close(nonblock, spins);
        o := HasClosed(r);
    }
  }

  /** Runs the calls one after the other, up to the first that is still waiting after `spins` turns. */
  method PerformAll(uart: Uart, calls: seq<Call>, spins: nat) returns (os: seq<Outcome>)
    requires uart.Valid() && !uart.txOwed && !uart.rxOwed
    requires uart.accepted == [] && uart.delivered == []
    modifies uart, uart.dev, uart.rxBuf, uart.txBuf
    ensures uart.Valid() && !uart.txOwed && !uart.rxOwed
    ensures AllFit(calls, os) && forall i :: 0 <= i < |os| - 1 ==> !Waits(os[i])
    ensures |os| == |calls| || (os != [] && Waits(os[|os| - 1]) && uart.turns >= old(uart.turns) + spins)
    ensures AllAccepted(calls, os) == uart.accepted && AllReturned(os) == uart.delivered
  {
    os := [];
    while |os| < |calls|
      invariant uart.Valid() && !uart.txOwed && !uart.rxOwed && uart.turns >= old(uart.turns)
      invariant AllFit(calls, os) && forall i :: 0 <= i < |os| ==> !Waits(os[i])
      invariant AllAccepted(calls, os) == uart.accepted && AllReturned(os) == uart.delivered
      decreases |calls| - |os|
    {
      var o := Perform(uart, calls[|os|], spins);
      OneMoreOutcome(calls, os, o);
      os := os + [o];
      if Waits(o) {
        break;
      }
    }
  }

  /** Any list of calls, with any interrupts during and between them.  The bytes reported as written are the bytes sent
      to the host followed by the transmit ring's contents, and the bytes fetched from the device are those returned
      followed by the receive ring's contents.  No wakeup is lost: bytes left in the transmit ring leave the device's
      write interrupt enabled, and a place left in the receive ring its read interrupt. */
  method Session(uart: Uart, calls: seq<Call>, spins: nat) returns (os: seq<Outcome>)
    requires uart.Valid() && !uart.txOwed && !uart.rxOwed
    requires uart.accepted == [] && uart.delivered == []
    modifies uart, uart.dev, uart.rxBuf, uart.txBuf
    ensures uart.Valid() && !uart.txOwed && !uart.rxOwed
    ensures uart.txIn < uart.txBuf.Length && uart.txOut < uart.txBuf.Length
    ensures uart.rxIn < uart.rxBuf.Length && uart.rxOut < uart.rxBuf.Length
    ensures AllFit(calls, os) && forall i :: 0 <= i < |os| - 1 ==> !Waits(os[i])
    ensures |os| == |calls| || (os != [] && Waits(os[|os| - 1]) && uart.turns >= old(uart.turns) + spins)
    ensures AllAccepted(calls, os) == uart.dev.sent + Contents(uart.txBuf[..], uart.txOut, uart.txIn)
    ensures uart.dev.popped == AllReturned(os) + Contents(uart.rxBuf[..], uart.rxOut, uart.rxIn)
    ensures uart.txIn != uart.txOut ==> uart.dev.we
    ensures (uart.rxIn + 1) % uart.rxBuf.Length != uart.rxOut ==> uart.dev.re
  {
    os := PerformAll(uart, calls, spins);
    uart.BetweenCalls();
  }
}
