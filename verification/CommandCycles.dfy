/**
 The command and address cycles of large-page chips: `nand_command_lp` drives them, and the S3C
 controller hook `s3c_nand_hwcontrol` latches them into the chip.
 */
module CommandCycles {

  const NONE := -1                 // NAND_CMD_NONE
  const READ0 := 0x00
  const RNDOUT := 0x05
  const READSTART := 0x30
  const READOOB := 0x50
  const RNDOUTSTART := 0xE0

  /** What the chip sees on its pins: a command byte or an address byte */
  datatype Latch = Cmd(b: nat) | Addr(b: nat)

  /** The control word: NAND_CTRL_CHANGE, NAND_NCE, NAND_CLE, NAND_ALE */
  datatype Ctrl = Ctrl(change: bool, nce: bool, cle: bool, ale: bool)

  /** writeb() keeps the low byte. */
  function Low(x: nat): (r: nat)
    ensures r < 256
  {
    x % 256
  }

  /** What one call of the hook latches */
  function Latched(dat: int, ctrl: Ctrl): seq<Latch> {
    if dat < 0 then []
    else if ctrl.cle then [Cmd(Low(dat))]
    else if ctrl.ale then [Addr(Low(dat))]
    else []
  }

  /** The column as it is sent: READOOB is READ0 behind the data bytes. */
  function SentColumn(command: nat, column: int, ws: nat): int {
    if command == READOOB then column + ws else column
  }

  function SentCommand(command: nat): nat {
    if command == READOOB then READ0 else command
  }

  function ColumnCycles(column: int): seq<Latch> {
    if column == -1 || column < 0 then [] else [Addr(Low(column)), Addr(Low(column / 256))]
  }

  function RowCycles(page: int, third: bool): seq<Latch> {
    if page == -1 || page < 0 then []
    else [Addr(Low(page)), Addr(Low(page / 256))] + if third then [Addr(Low(page / 65536))] else []
  }

  /** The command that completes a read or a column change */
  function Closing(command: nat): seq<Latch> {
    if command == RNDOUT then [Cmd(RNDOUTSTART)] else if command == READ0 then [Cmd(READSTART)] else []
  }

  /** Everything nand_command_lp latches */
  function CommandTrace(command: nat, column: int, page: int, ws: nat, third: bool): seq<Latch> {
    var sent := SentCommand(command);
    [Cmd(Low(sent))] + ColumnCycles(SentColumn(command, column, ws)) + RowCycles(page, third) + Closing(sent)
  }

  /** The controller: the chip-enable line, and what it has latched into the chip */
  class NandPort {
    var enabled: bool
    var trace: seq<Latch>

    constructor ()
      ensures !enabled && trace == []
    {
      enabled, trace := false, [];
    }

    /** s3c_nand_hwcontrol */
    method HwControl(dat: int, ctrl: Ctrl)
      requires dat >= -1
      modifies this
      ensures trace == old(trace) + Latched(dat, ctrl)
      ensures enabled == if ctrl.change && !ctrl.nce then false
                         else if ctrl.change && dat != NONE then true else old(enabled)
    {
      if ctrl.change {
        if ctrl.nce {
          if dat != NONE {
            enabled := true;
          }
        } else {
          enabled := false;
        }
      }
      if dat != NONE {
        if ctrl.cle {
          trace := trace + [Cmd(dat % 256)];
        } else if ctrl.ale {
          trace := trace + [Addr(dat % 256)];
        }
      }
    }

    /** The address part of nand_command_lp */
    method SendAddress(column: int, page: int, chipsize: nat)
      requires column >= -1 && page >= -1
      modifies this
      ensures trace == old(trace) + ColumnCycles(column) + RowCycles(page, chipsize > 0x800_0000)
      ensures old(enabled) ==> enabled
    {
      var ctrl := Ctrl(true, true, false, true);
      if column != -1 {
        HwControl(column, ctrl);
        ctrl := ctrl.(change := false);
        HwControl(column / 256, ctrl);
      }
      ghost var mid := trace;
      assert mid == old(trace) + ColumnCycles(column);
      if page != -1 {
        HwControl(page, ctrl);
        HwControl(page / 256, Ctrl(false, true, false, true));
        if chipsize > 0x800_0000 {
          HwControl(page / 65536, Ctrl(false, true, false, true));
        }
      }
      assert trace == mid + RowCycles(page, chipsize > 0x800_0000);
    }

    /** The end of nand_command_lp: the latches are left, and reads and column changes are completed. */
    method CloseCommand(command: nat)
      requires enabled
      modifies this
      ensures enabled && trace == old(trace) + Closing(command)
    {
      HwControl(NONE, Ctrl(true, true, false, false));
      if command == RNDOUT {
        HwControl(RNDOUTSTART, Ctrl(true, true, true, false));
        HwControl(NONE, Ctrl(true, true, false, false));
      } else if command == READ0 {
        HwControl(READSTART, Ctrl(true, true, true, false));
        HwControl(NONE, Ctrl(true, true, false, false));
      }
    }

    /** nand_command_lp, with a ready pin (dev_ready) and an 8-bit bus */
    method CommandLp(command0: nat, column0: int, page: int, ws: nat, chipsize: nat)
      requires column0 >= -1 && page >= -1
      modifies this
      ensures enabled
      ensures trace == old(trace) + CommandTrace(command0, column0, page, ws, chipsize > 0x800_0000)
    {
      var command, column := command0, column0;
      if command == READOOB {
        column := column + ws;
        command := READ0;
      }
      HwControl(command % 256, Ctrl(true, true, true, false));
      ghost var begun, third := trace, chipsize > 0x800_0000;
      SendAddress(column, page, chipsize);
      CloseCommand(command);
      JoinTrace(old(trace), [Cmd(Low(command))], ColumnCycles(column), RowCycles(page, third), Closing(command));
    }
  }

  lemma JoinTrace(old': seq<Latch>, a: seq<Latch>, b: seq<Latch>, d: seq<Latch>, z: seq<Latch>)
    ensures old' + a + b + d + z == old' + (a + b + d + z)
  {
  }

  // ---------------------------------------------------------------- what the chip decodes

  /** The address bytes between a command and the next */
  function AddressBytes(trace: seq<Latch>): seq<nat> {
    if trace == [] || trace[0].Cmd? then [] else [trace[0].b] + AddressBytes(trace[1..])
  }

  /** A little-endian number of address bytes */
  function Value(bytes: seq<nat>): nat {
    if bytes == [] then 0 else bytes[0] + 256 * Value(bytes[1..])
  }

  lemma LowBytes(x: nat)
    ensures Low(x) + 256 * Low(x / 256) == x % 65536
    ensures Low(x) + 256 * (Low(x / 256) + 256 * Low(x / 65536)) == x % 16777216
  {
    assert x / 256 / 256 == x / 65536;
  }

  lemma ColumnValue(column: nat)
    ensures Value([Low(column), Low(column / 256)]) == column % 65536
  {
    LowBytes(column);
    assert Value([Low(column / 256)]) == Low(column / 256);
    assert [Low(column), Low(column / 256)][1..] == [Low(column / 256)];
  }

  lemma RowValue(page: nat, third: bool)
    ensures third ==> Value([Low(page), Low(page / 256), Low(page / 65536)]) == page % 16777216
    ensures !third ==> Value([Low(page), Low(page / 256)]) == page % 65536
  {
    LowBytes(page);
    var l, m, h := Low(page), Low(page / 256), Low(page / 65536);
    assert [l, m][1..] == [m] && [l, m, h][1..] == [m, h] && [m, h][1..] == [h];
    assert Value([h]) == h && Value([m]) == m;
    assert Value([m, h]) == m + 256 * h;
  }

  function BytesOf(l: seq<Latch>): (r: seq<nat>)
    ensures |r| == |l| && forall i :: 0 <= i < |l| ==> r[i] == l[i].b
  {
    if l == [] then [] else [l[0].b] + BytesOf(l[1..])
  }

  lemma {:induction false} AddressPrefix(l: seq<Latch>, rest: seq<Latch>)
    requires (forall i :: 0 <= i < |l| ==> l[i].Addr?) && (rest == [] || rest[0].Cmd?)
    ensures AddressBytes(l + rest) == BytesOf(l)
    decreases |l|
  {
    if l == [] {
      assert l + rest == rest;
    } else {
      assert (l + rest)[1..] == l[1..] + rest;
      AddressPrefix(l[1..], rest);
    }
  }

  /** The address bytes of a command with a column and a page: the column's two, then the row's two or three. */
  lemma FullAddress(command: nat, column: nat, page: nat, ws: nat, third: bool)
    requires command != READOOB
    ensures AddressBytes(CommandTrace(command, column, page, ws, third)[1..]) ==
            BytesOf(ColumnCycles(column) + RowCycles(page, third))
  {
    var l, rest := ColumnCycles(column) + RowCycles(page, third), Closing(SentCommand(command));
    DropFirst(Cmd(Low(SentCommand(command))), ColumnCycles(column), RowCycles(page, third), rest);
    AddressPrefix(l, rest);
  }

  lemma DropFirst(first: Latch, a: seq<Latch>, b: seq<Latch>, rest: seq<Latch>)
    ensures ([first] + a + b + rest)[1..] == (a + b) + rest
  {
  }

  /** The chip takes the first two address bytes for the column and the others for the row. */
  ghost predicate Decodes(trace: seq<Latch>, column: nat, page: nat) {
    var a := AddressBytes(trace[if trace == [] then 0 else 1..]);
    |a| >= 2 && Value(a[..2]) == column && Value(a[2..]) == page
  }

  /** The chip decodes exactly the column and page that were asked for if and only if they fit the cycles sent. */
  lemma DecodesExactly(command: nat, column: nat, page: nat, ws: nat, third: bool)
    requires command != READOOB
    ensures Decodes(CommandTrace(command, column, page, ws, third), column, page) <==>
            column < 65536 && page < if third then 16777216 else 65536
  {
    FullAddress(command, column, page, ws, third);
    ColumnValue(column);
    RowValue(page, third);
    SplitBytes(ColumnCycles(column), RowCycles(page, third));
    ColumnBytes(column);
    RowBytes(page, third);
  }

  lemma SplitBytes(a: seq<Latch>, b: seq<Latch>)
    ensures BytesOf(a + b)[..|a|] == BytesOf(a) && BytesOf(a + b)[|a|..] == BytesOf(b)
  {
    var all := BytesOf(a + b);
    forall i | 0 <= i < |a| ensures all[i] == BytesOf(a)[i] {
      assert (a + b)[i] == a[i];
    }
    forall i | 0 <= i < |b| ensures all[|a|..][i] == BytesOf(b)[i] {
      assert (a + b)[|a| + i] == b[i];
    }
  }

  lemma ColumnBytes(column: nat)
    ensures BytesOf(ColumnCycles(column)) == [Low(column), Low(column / 256)]
  {
  }

  lemma RowBytes(page: nat, third: bool)
    ensures third ==> BytesOf(RowCycles(page, third)) == [Low(page), Low(page / 256), Low(page / 65536)]
    ensures !third ==> BytesOf(RowCycles(page, third)) == [Low(page), Low(page / 256)]
  {
  }

  lemma LargeProduct(page: nat, ws: nat)
    requires page >= 65536 && ws >= 2048
    ensures page * ws >= 65536 * 2048
  {
    assert page * ws >= 65536 * ws;
  }

  /** Pages of 2 KiB and more leave at most 2^16 of them in 128 MiB. */
  lemma FewPages(chipsize: nat, ws: nat, page: nat)
    requires ws >= 2048 && page * ws < chipsize <= 0x800_0000
    ensures page < 65536
  {
    if page >= 65536 {
      LargeProduct(page, ws);
    }
  }

  /** Every page of a chip with pages of at least 2 KiB, and every column below 2^16, is addressed exactly. */
  lemma EveryPageAddressed(command: nat, column: nat, page: nat, ws: nat, chipsize: nat)
    requires command != READOOB && column < 65536 && ws >= 2048 && page * ws < chipsize && page < 16777216
    ensures Decodes(CommandTrace(command, column, page, ws, chipsize > 0x800_0000), column, page)
  {
    DecodesExactly(command, column, page, ws, chipsize > 0x800_0000);
    if chipsize <= 0x800_0000 {
      FewPages(chipsize, ws, page);
    }
  }

  /** READOOB at column c is READ0 at column writesize + c. */
  lemma ReadOobIsRead(column: nat, page: int, ws: nat, third: bool)
    ensures CommandTrace(READOOB, column, page, ws, third) == CommandTrace(READ0, ws + column, page, ws, third)
  {
  }

  // ---------------------------------------------------------------- the whole sequence

  /** How many address bytes go out */
  function Cycles(column: int, page: int, third: bool): nat {
    (if column < 0 then 0 else 2) + (if page < 0 then 0 else if third then 3 else 2)
  }

  /** A command byte, its address bytes, and then 0x30 after a read, 0xE0 after a change of column and nothing otherwise */
  lemma TraceShape(command: nat, column: int, page: int, ws: nat, third: bool, n: nat)
    requires column >= -1 && page >= -1 && n == Cycles(if command == 0x50 then column + ws else column, page, third)
    ensures var t := CommandTrace(command, column, page, ws, third);
            && |t| == n + (if command == 0x00 || command == 0x05 || command == 0x50 then 2 else 1)
            && t[0] == Cmd(if command == 0x50 then 0x00 else command % 256)
            && (forall i :: 1 <= i <= n ==> t[i].Addr?)
            && (command == 0x00 || command == 0x50 ==> t[n + 1] == Cmd(0x30))
            && (command == 0x05 ==> t[n + 1] == Cmd(0xE0))
  {
  }
}
