/**
 The driver's static record and the code that updates it, one method per atomic section. The
 position of each thread and the chip's answers are explicit; every method is one step of the
 system in module Radio.
 */
module RadioDriver {
  import opened Basics
  import opened Radio

  class Nrf {
    var rxMail: seq<nat>
    const rxBufs: array<Payload>
    var rxIdx: nat
    var txMail: seq<nat>
    const txBufs: array<Payload>
    var txIdx: nat

    var pc: Pc
    var event: bool
    var mode: Mode
    var sender: Sender
    ghost var h: History

    ghost function View(): State
      reads this, rxBufs, txBufs
    {
      State(Ring(rxMail, rxBufs[..], rxIdx), Ring(txMail, txBufs[..], txIdx), pc, event, mode, sender, h)
    }

    ghost predicate Valid()
      reads this, rxBufs, txBufs
    {
      rxBufs != txBufs && Shape(View())
    }

    constructor ()
      ensures Valid() && View() == Radio.Init() && fresh(rxBufs) && fresh(txBufs)
    {
      rxBufs := new Payload[MBSZ](_ => ZEROS);
      txBufs := new Payload[MBSZ](_ => ZEROS);
      rxMail, rxIdx := [], 0;
      txMail, txIdx := [], 0;
      pc, event, mode, sender := Waiting, false, RxMode, Idle;
      h := History([], [], 0, [], [], [], [], false);
      new;
      assert rxBufs[..] == Blank() && txBufs[..] == Blank();
    }

    /** The locked section of `nrf_recv`, once the mailbox is not empty. */
    method NrfRecv() returns (msg: Payload)
      requires Valid() && rxMail != []
      modifies this
      ensures Valid() && View() == Step(old(View()), Recv)
      ensures h.delivered == old(h.delivered) + [msg]
    {
      msg := rxBufs[rxMail[0]];
      rxMail := rxMail[1..];
      h := h.(fates := h.fates + [Delivered(|h.posts|)], delivered := h.delivered + [msg]);
    }

    /** `nrf_send` up to the wait: the slot is chosen. */
    method NrfSendStart(msg: Payload)
      requires Valid() && sender.Idle?
      modifies this
      ensures Valid() && View() == Step(old(View()), SendStart(msg))
    {
      sender := Posting(msg, txIdx);
    }

    /** The rest of the locked section of `nrf_send`, once the mailbox has room. */
    method NrfSendPost()
      requires Valid() && sender.Posting? && |txMail| < MBSZ
      modifies this, txBufs
      ensures Valid() && View() == Step(old(View()), SendPost)
    {
      txMail := txMail + [sender.slot];
      txBufs[sender.slot] := sender.msg;
      txIdx := (txIdx + 1) % MBSZ;
      h := h.(accepted := h.accepted + [sender.msg]);
      sender := Kicking;
    }

    /** `nrf_kick_loop`, called by the sender after the lock is released. */
    method NrfKickLoop()
      requires Valid() && sender.Kicking?
      modifies this
      ensures Valid() && View() == Step(old(View()), SendKick)
    {
      event := true;
      sender := Idle;
    }

    /** `nrf_kick_loop`, called from the chip's interrupt line. */
    method NrfExtIrq()
      requires Valid()
      modifies this
      ensures Valid() && View() == Step(old(View()), Interrupt)
    {
      event := true;
    }

    /** One step of the event loop: the wait, then the steps of `nrf_irq`, then `nrf_check_tx`. */
    method RadioStep(chip: Chip)
      requires Valid() && (pc.Waiting? ==> event)
      modifies this, rxBufs
      ensures Valid() && View() == Step(old(View()), Event.RadioStep(chip))
    {
      match pc {
        case Waiting => event, pc := false, GetStatus;
        case GetStatus =>
          if RxReady(chip.status) {
            pc := DropOldest(chip.status);
          } else {
            pc := AfterRx(chip.status);
          }
        case DropOldest(status) =>
          if |rxMail| >= MBSZ {
            rxMail := rxMail[1..];
            h := h.(fates := h.fates + [Dropped(|h.posts|)]);
          }
          pc := StartRead(status);
        case StartRead(status) =>
          if chip.HasFrame() {
            pc := Reading(status, chip.payload, 0);
          } else {
            pc := Post(status, None);
          }
        case Reading(status, payload, k) =>
          rxBufs[rxIdx] := rxBufs[rxIdx][k := payload[k]];
          pc := if k + 1 < PAYLOADSZ then Reading(status, payload, k + 1) else Post(status, Some(payload));
        case Post(status, read) => PostFrame(status, read);
        case Advance(status) =>
          rxIdx := (rxIdx + 1) % MBSZ;
          pc := AfterRx(status);
        case SentIrq =>
          if txMail == [] {
            mode := RxMode;
          }
          pc, h := CheckTx, h.(outstanding := false);
        case CheckTx => NrfCheckTx();
      }
    }

    method PostFrame(status: byte, read: Option<Payload>)
      requires Valid() && pc == Post(status, read)
      modifies this
      ensures Valid() && View() == Radio.PostFrame(old(View()))
    {
      h := h.(inputs := h.inputs + [read], posts := h.posts + [rxBufs[rxIdx]]);
      if |rxMail| < MBSZ {
        rxMail := rxMail + [rxIdx];
      } else {
        h := h.(lost := h.lost + 1);
      }
      pc := Advance(status);
    }

    method NrfCheckTx()
      requires Valid() && pc.CheckTx?
      modifies this
      ensures Valid() && View() == SendNext(old(View()))
    {
      if txMail != [] {
        h := h.(sent := h.sent + [txBufs[txMail[0]]], outstanding := true);
        txMail := txMail[1..];
        mode := TxMode;
      }
      pc := Waiting;
    }
  }
}
