/** The bootloader's static variables and the code that updates them, over a flash array. */
module DfuDevice {
  import opened Basics
  import opened Flash
  import opened Dfu

  /** The requests the handler answers: DNLOAD, GETSTATUS, CLRSTATUS, GETSTATE and ABORT; the others are refused. */
  predicate Accepted(req: Request) {
    req.kind in {0x21, 0xA1} && req.code in {1, 3, 4, 5, 6}
  }

  class Bootloader {
    var dfu: DfuState
    const buf: array<byte>
    var len: nat
    var addr: u32
    var blocknum: u16

    const flash: array<byte>
    const pageSize: nat

    var completing: bool
    var i: nat
    var timeout: nat
    var app: bool

    ghost function Cells(): RawFlash
      reads this, flash
    {
      RawFlash(flash[..], pageSize)
    }

    ghost function View(): RawState
      reads this, buf, flash
      requires Valid()
    {
      RawState(dfu, Prog(buf[..], len, addr, blocknum), Cells(), completing, i, timeout, app)
    }

    ghost predicate Valid()
      reads this, buf, flash
    {
      && buf != flash && buf.Length == TRANSFER_SIZE && len <= TRANSFER_SIZE
      && pageSize > 0
      && APP_ADDRESS + 4 <= BASE + flash.Length <= 0x1_0000_0000
    }

    /** Power-up, over the given contents of the flash. */
    constructor (f: Memory)
      ensures Valid() && fresh(buf) && fresh(flash) && View() == Start(f)
    {
      dfu, len, addr, blocknum := DfuIdle, 0, 0, 0;
      completing, i, timeout, app := false, 0, 0, false;
      buf := new byte[TRANSFER_SIZE](_ => 0);
      flash := new byte[|f.cells|](o requires 0 <= o < |f.cells| => f.cells[o]);
      pageSize := f.pageSize;
      new;
      assert flash[..] == f.cells;
    }

    method FlashErasePage(page: u32)
      requires Valid()
      modifies flash
      ensures Cells() == ErasePage(old(Cells()), page)
    {
      if BASE <= page < BASE + flash.Length {
        var p := (page - BASE) / pageSize;
        for o := 0 to flash.Length
          invariant forall j | 0 <= j < o :: flash[j] == if j / pageSize == p then ERASED else old(flash[j])
          invariant forall j | o <= j < flash.Length :: flash[j] == old(flash[j])
        {
          if o / pageSize == p {
            flash[o] := ERASED;
          }
        }
      }
    }

    method FlashProgramHalfWord(at: u32, v: u16)
      requires Valid()
      modifies flash
      ensures Cells() == ProgramHalfWord(old(Cells()), at, v)
    {
      if at % 2 == 0 && BASE <= at && at + 1 < BASE + flash.Length {
        var o := at - BASE;
        if flash[o] == ERASED && flash[o + 1] == ERASED {
          flash[o] := v % 0x100;
          flash[o + 1] := v / 0x100;
        }
      }
    }

    /** One round of the half-word loop. */
    method ProgramHalf(base: u32, k: nat, ghost h: nat)
      requires Valid() && k == 2 * h && k < len
      modifies flash
      ensures Cells() == ProgramRound(old(Cells()), base, buf[..], h)
    {
      FlashProgramHalfWord((base + k) % 0x1_0000_0000, HalfWord(buf[..], k));
    }

    /** The half-word loop. */
    method ProgramBlock(base: u32)
      requires Valid()
      modifies flash
      ensures Cells() == ProgramFrom(old(Cells()), base, buf[..], len, 0)
    {
      ghost var goal := ProgramFrom(Cells(), base, buf[..], len, 0);
      ghost var h := 0;
      var k := 0;
      while k < len
        invariant k == 2 * h && ProgramFrom(Cells(), base, buf[..], len, h) == goal
      {
        ProgramHalf(base, k, h);
        k, h := k + 2, h + 1;
      }
    }

    /** The deferred effect of the download in the buffer; erase falls through to the address command. */
    method CarryOut()
      requires Valid()
      modifies this`addr, flash
      ensures Target(Cells(), addr) == Execute(Target(old(Cells()), old(addr)), blocknum, buf[..], len)
    {
      if blocknum == 0 {
        var dat := Word(buf[..], 1);
        if buf[0] == CMD_ERASE {
          FlashErasePage(dat);
          addr := dat;
        } else if buf[0] == CMD_SETADDR {
          addr := dat;
        }
      } else {
        ProgramBlock(BlockAddress(addr, blocknum));
      }
    }

    /** `usbdfu_getstatus_complete` */
    method GetStatusComplete()
      requires Valid()
      modifies this, flash
      ensures Valid() && View() == StatusComplete(old(View()))
    {
      match dfu {
        case DnBusy =>
          CarryOut();
          dfu := DnloadIdle;
        case Manifest => app := true;
        case _ =>
      }
    }

    /** The end of a control transfer, which runs the completion callback if one was set. */
    method TransferComplete()
      requires Valid() && !app
      modifies this, flash
      ensures Valid() && View() == Step(old(View()), Complete)
    {
      if completing {
        GetStatusComplete();
        completing := false;
      }
    }

    /** `usbdfu_control_request` */
    method ControlRequest(req: Request) returns (ok: bool)
      requires Valid() && !app
      modifies this, buf
      ensures Valid() && View() == Step(old(View()), Setup(req)) && ok == Accepted(req)
    {
      completing, ok := false, true;
      if req.kind % 0x80 != 0x21 {
        ok := false;
      } else if req.code == DFU_DNLOAD {
        if |req.data| == 0 {
          dfu := ManifestSync;
        } else {
          blocknum, len := req.value, |req.data|;
          CopyData(req.data);
          dfu := DnloadSync;
        }
      } else if req.code == DFU_CLRSTATUS {
        if dfu.DfuError? {
          dfu := DfuIdle;
        }
      } else if req.code == DFU_ABORT {
        dfu := DfuIdle;
      } else if req.code == DFU_GETSTATUS {
        if dfu.DnloadSync? {
          dfu := DnBusy;
        } else if dfu.ManifestSync? {
          dfu := Manifest;
        }
        completing := true;
      } else if req.code == DFU_UPLOAD {
        ok := false; // not supported
      } else if req.code != DFU_GETSTATE {
        ok := false;
      }
    }

    /** The copy of the request's data into the programming buffer. */
    method CopyData(data: Data)
      requires Valid()
      modifies buf
      ensures buf[..] == Overlay(data, old(buf[..]))
    {
      for k := 0 to |data|
        invariant forall j | 0 <= j < k :: buf[j] == data[j]
        invariant forall j | k <= j < buf.Length :: buf[j] == old(buf[j])
      {
        buf[k] := data[k];
      }
    }

    /** One round of the main loop after usbd_poll. */
    method MainLoopRound()
      requires Valid() && !app
      modifies this
      ensures Valid() && View() == Step(old(View()), Tick)
    {
      var due := i >= 80000;
      i := i + 1;
      if due {
        i := 0;
        if dfu.DfuIdle? && AppValid(RawFlash(flash[..], pageSize)) {
          var last := timeout > 13;
          timeout := timeout + 1;
          if last {
            app := true;
          }
        } else {
          timeout := 0;
        }
      }
    }
  }
}
