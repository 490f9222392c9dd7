/** The interpreter as the source runs it: memory, display and registers are
    arrays updated in place, `pc`, `I` and the return stack are variables, and
    one cycle is a method (src/main.rs, lines 26-152). Each method is proved to
    do what module Semantics says of the state it changes. */
module Interpreter {
  import opened Words
  import opened Decoding
  import opened Semantics

  /** What a cycle leaves behind: the loop goes on, or the program panicked. */
  datatype Status = Running | Halted(fault: Fault)

  /** The display array as a value. */
  ghost function Snapshot(a: array2<bool>): (d: Screen)
    reads a
    requires a.Length0 == Width && a.Length1 == Height
    ensures ScreenShape(d)
  {
    seq(Width, cx requires 0 <= cx < Width reads a =>
      seq(Height, cy requires 0 <= cy < Height reads a => a[cx, cy]))
  }

  /** The pixels of the snapshot are those of the array. */
  lemma SnapshotPixels(a: array2<bool>)
    requires a.Length0 == Width && a.Length1 == Height
    ensures forall cx, cy :: 0 <= cx < Width && 0 <= cy < Height ==> Snapshot(a)[cx][cy] == a[cx, cy]
  {
  }

  /** An array whose pixels are those of `d` with the first `cols` columns
      of `row` painted on row `cy` holds the painted row, when those columns
      are all of the row or reach the right edge. */
  lemma RowPainted(a: array2<bool>, d: Screen, x0: nat, cy: nat, row: byte, cols: nat)
    requires a.Length0 == Width && a.Length1 == Height && ScreenShape(d) && cy < Height
    requires cols == 8 || (cols < 8 && x0 + cols == Width)
    requires forall cx, py :: 0 <= cx < Width && 0 <= py < Height && py != cy ==> a[cx, py] == d[cx][py]
    requires forall cx :: 0 <= cx < Width ==>
               a[cx, cy] == (d[cx][cy] || (x0 <= cx < x0 + cols && SpriteBit(row, cx - x0)))
    ensures Snapshot(a) == PaintRow(d, x0, cy, row)
  {
    SnapshotPixels(a);
    PaintRowPixels(d, x0, cy, row);
    ScreensEqual(Snapshot(a), PaintRow(d, x0, cy, row));
  }

  class Chip8 {
    const memory: array<byte>
    /** Indexed `[x, y]`, 64 columns of 32 pixels. */
    const display: array2<bool>
    const registers: array<byte>
    var pc: u16
    var index: u16
    var stack: seq<u16>

    ghost predicate Valid()
      reads this
    {
      memory.Length == MemorySize &&
      display.Length0 == Width && display.Length1 == Height &&
      registers.Length == RegisterCount && memory != registers
    }

    /** The whole state as a value of module Semantics. */
    ghost function State(): (m: Machine)
      reads this, memory, display, registers
      requires Valid()
      ensures WellFormed(m)
    {
      Machine(memory[..], Snapshot(display), registers[..], pc, index, stack)
    }

    /** Everything zero, the display off, `pc` at 512 (lines 26-33). */
    constructor ()
      ensures Valid() && fresh(memory) && fresh(display) && fresh(registers)
      ensures State() == PowerOn()
    {
      memory := new byte[MemorySize](_ => 0);
      display := new bool[Width, Height]((_, _) => false);
      registers := new byte[RegisterCount](_ => 0);
      pc := ProgramStart;
      index := 0;
      stack := [];
      new;
      SnapshotPixels(display);
      assert memory[..] == PowerOn().memory;
      assert registers[..] == PowerOn().v;
      ScreensEqual(Snapshot(display), Blank());
    }

    /** Copies `file` byte by byte to address 512 onward (lines 38-40). */
    method Load(file: seq<byte>) returns (status: Status)
      requires Valid()
      modifies memory
      ensures Valid()
      ensures match LoadImage(old(memory[..]), file)
              case Err(e) => status == Halted(e)
              case Ok(mem) => status == Running && memory[..] == mem
    {
      for i := 0 to |file|
        invariant ProgramStart + i <= MemorySize
        invariant forall a :: 0 <= a < MemorySize ==>
                    memory[a] == if ProgramStart <= a < ProgramStart + i then file[a - ProgramStart] else old(memory[a])
      {
        if ProgramStart + i >= MemorySize {
          return Halted(RomTooLarge);
        }
        memory[ProgramStart + i] := file[i];
      }
      status := Running;
    }

    /** `00E0`: switch every pixel off, column by column (lines 59-65). */
    method ClearDisplay()
      requires Valid()
      modifies display
      ensures Snapshot(display) == Blank()
    {
      for i := 0 to Width
        invariant forall cx, cy :: 0 <= cx < i && 0 <= cy < Height ==> !display[cx, cy]
      {
        for j := 0 to Height
          invariant forall cx, cy :: 0 <= cx < i && 0 <= cy < Height ==> !display[cx, cy]
          invariant forall cy :: 0 <= cy < j ==> !display[i, cy]
        {
          display[i, j] := false;
        }
      }
      SnapshotPixels(display);
      ScreensEqual(Snapshot(display), Blank());
    }

    /** The display and registers while a sprite row is being drawn over
        `d0`: the first `cols` columns of `row` are painted on row `cy`, every
        other pixel is as in `d0`, and `VF` records their collisions. */
    ghost predicate Painting(d0: Screen, v0: seq<byte>, x0: nat, cy: nat, row: byte, cols: nat)
      reads this, display, registers
      requires Valid() && ScreenShape(d0) && cy < Height && cols <= 8 && |v0| == RegisterCount
    {
      (forall cx, py :: 0 <= cx < Width && 0 <= py < Height && py != cy ==> display[cx, py] == d0[cx][py]) &&
      (forall cx :: 0 <= cx < Width ==>
         display[cx, cy] == (d0[cx][cy] || (x0 <= cx < x0 + cols && SpriteBit(row, cx - x0)))) &&
      registers[..] == v0[Flag := if RowCollision(d0, x0, cy, row, cols) then 1 else v0[Flag]]
    }

    /** One column of a sprite row (lines 128-136): a 1 over a lit pixel
        switches it off and sets `VF`, then a 1 over a dark pixel switches it
        on, so a 1 always leaves the pixel on. */
    method DrawBit(row: byte, j: nat, xCoord: nat, yCoord: nat, ghost x0: nat, ghost d0: Screen, ghost v0: seq<byte>)
      requires Valid() && ScreenShape(d0) && |v0| == RegisterCount
      requires j < 8 && xCoord == x0 + j && xCoord < Width && yCoord < Height
      requires Painting(d0, v0, x0, yCoord, row, j)
      modifies display, registers
      ensures Painting(d0, v0, x0, yCoord, row, j + 1)
    {
      var currentBit := Shr(row, 7 - j) % 2;
      if currentBit == 1 && display[xCoord, yCoord] {
        display[xCoord, yCoord] := false;
        registers[Flag] := 1;
      }
      if currentBit == 1 && !display[xCoord, yCoord] {
        display[xCoord, yCoord] := true;
      }
    }

    /** One sprite row of `Dxyn` (lines 125-143): the bits of `byte`, most
        significant first, over the pixels from `(xStart, yCoord)` rightward,
        stopping at column 63. A 1 over a pixel that is on sets `VF` to 1. */
    method DrawRow(byte: byte, xStart: nat, yCoord: nat, ghost d0: Screen, ghost v0: seq<byte>)
      requires Valid() && xStart < Width && yCoord < Height
      requires Snapshot(display) == d0 && registers[..] == v0
      modifies display, registers
      ensures Snapshot(display) == PaintRow(d0, xStart, yCoord, byte)
      ensures registers[..] == v0[Flag := if RowCollision(d0, xStart, yCoord, byte, 8) then 1 else v0[Flag]]
    {
      SnapshotPixels(display);
      var xCoord := xStart;
      ghost var cols := 0;  // the columns drawn so far
      for j := 0 to 8
        invariant cols == j && xCoord == xStart + j && xCoord < Width
        invariant Painting(d0, v0, xStart, yCoord, byte, cols)
      {
        DrawBit(byte, j, xCoord, yCoord, xStart, d0, v0);
        cols := j + 1;
        if xCoord >= Width - 1 {
          break;
        }
        xCoord := xCoord + 1;
      }
      if cols < 8 {
        RowCollisionClipped(d0, xStart, yCoord, byte, cols);
      }
      RowPainted(display, d0, xStart, yCoord, byte, cols);
    }

    /** `Dxyn` (lines 115-150): reads `Vx mod 64` and `Vy mod 32`, clears `VF`,
        then draws the rows. */
    method DrawSprite(x: nat, y: nat, n: nat, ghost s0: Machine) returns (status: Status)
      requires Valid() && x < RegisterCount && y < RegisterCount && n < 16
      requires s0 == State()
      modifies display, registers
      ensures match Draw(s0, x, y, n)
              case Err(e) => status == Halted(e)
              case Ok(m) => status == Running && Snapshot(display) == m.display && registers[..] == m.v
    {
      var xStart := registers[x] % Width;
      var yCoord := registers[y] % Height;
      registers[Flag] := 0;
      ghost var sprite;
      status, sprite := DrawRows(xStart, yCoord, n, s0.memory, s0.display, registers[..]);
      if status == Running {
        DrawSucceeds(s0, x, y, n, sprite);
      }
    }

    /** The row loop of `Dxyn` (lines 121-149): up to `n` rows from
        `memory[I..]`, drawn from row `y0` down, stopping early once the next
        row would be 31 or more. `sprite` is the rows it read. */
    method DrawRows(xStart: nat, y0: nat, n: nat, ghost mem: seq<byte>, ghost d0: Screen, ghost v0: seq<byte>)
      returns (status: Status, ghost sprite: seq<byte>)
      requires Valid() && xStart < Width && y0 < Height
      requires memory[..] == mem && Snapshot(display) == d0 && registers[..] == v0
      modifies display, registers
      ensures status != Running ==>
                status == Halted(SpriteOutOfRange) && SpriteRows(n, y0) > 0 && index + SpriteRows(n, y0) > MemorySize
      ensures status == Running ==>
                |sprite| == SpriteRows(n, y0) &&
                (|sprite| > 0 ==> index + |sprite| <= MemorySize && sprite == mem[index..index + |sprite|]) &&
                Snapshot(display) == Drawn(d0, xStart, y0, sprite) &&
                registers[..] == v0[Flag := if Collision(d0, xStart, y0, sprite) then 1 else v0[Flag]]
    {
      var yCoord := y0;
      sprite := [];
      for i := 0 to n
        invariant yCoord == y0 + i && i <= SpriteRows(n, y0)
        invariant i == 0 || y0 + i < Height - 1
        invariant |sprite| == i && (i > 0 ==> index + i <= MemorySize && sprite == mem[index..index + i])
        invariant Snapshot(display) == Drawn(d0, xStart, y0, sprite)
        invariant registers[..] == v0[Flag := if Collision(d0, xStart, y0, sprite) then 1 else v0[Flag]]
      {
        SpriteRowsAtLeast(n, y0, i);
        if index as int + i >= MemorySize {
          return Halted(SpriteOutOfRange), sprite;
        }
        sprite := DrawSpriteRow(i, xStart, yCoord, y0, mem, d0, v0, sprite);
        yCoord := yCoord + 1;
        if yCoord >= Height - 1 {
          SpriteRowsExact(n, y0, i + 1);
          assert Snapshot(display) == Drawn(d0, xStart, y0, sprite);
          assert registers[..] == v0[Flag := if Collision(d0, xStart, y0, sprite) then 1 else v0[Flag]];
          break;
        }
      }
      status := Running;
    }

    /** One pass of the row loop of `Dxyn` (lines 122-143): reads row `i` from
        `memory[I + i]` and draws it on row `yCoord`, extending the rows read so far. */
    method DrawSpriteRow(i: nat, xStart: nat, yCoord: nat, y0: nat, ghost mem: seq<byte>, ghost d0: Screen,
                         ghost v0: seq<byte>, ghost sprite: seq<byte>) returns (ghost sprite': seq<byte>)
      requires Valid() && xStart < Width && yCoord == y0 + i && yCoord < Height && index + i < MemorySize
      requires memory[..] == mem && ScreenShape(d0) && |v0| == RegisterCount
      requires |sprite| == i && (i > 0 ==> sprite == mem[index..index + i])
      requires Snapshot(display) == Drawn(d0, xStart, y0, sprite)
      requires registers[..] == v0[Flag := if Collision(d0, xStart, y0, sprite) then 1 else v0[Flag]]
      modifies display, registers
      ensures sprite' == mem[index..index + i + 1]
      ensures Snapshot(display) == Drawn(d0, xStart, y0, sprite')
      ensures registers[..] == v0[Flag := if Collision(d0, xStart, y0, sprite') then 1 else v0[Flag]]
    {
      var byte := memory[index + i];
      NextRow(mem, index, i);
      SpriteGrows(d0, xStart, y0, sprite, byte, yCoord);
      DrawRow(byte, xStart, yCoord, Drawn(d0, xStart, y0, sprite), registers[..]);
      sprite' := sprite + [byte];
    }

    /** One iteration of the main loop: fetch the word at `pc`, advance `pc`
        by 2, then dispatch on the high nibble (lines 43-152); `r` stands for
        the value of `random::<u8>()`. */
    method Step(r: byte) returns (status: Status)
      requires Valid()
      modifies this, display, registers
      ensures Valid()
      ensures match Exec(old(State()), r)
              case Err(e) => status == Halted(e)
              case Ok(m) => status == Running && State() == m
    {
      if pc + 1 >= MemorySize {
        return Halted(PcOutOfRange);
      }
      ExecFetched(State(), r);
      var instruction := Fetch(memory[pc], memory[pc + 1]);
      var f := Decode(instruction);
      pc := pc + 2;
      status := Dispatch(f, r, State());
    }

    /** The dispatch on the high nibble of a decoded instruction, after `pc`
        has been advanced (lines 57-152). */
    method Dispatch(f: Fields, r: byte, ghost m: Machine) returns (status: Status)
      requires Valid() && m == State() && pc <= MemorySize
      requires f.x < RegisterCount && f.y < RegisterCount && f.n < 16
      requires f.nn < 256 && f.nnn < MemorySize
      modifies this, display, registers
      ensures Valid()
      ensures match Execute(m, f, r)
              case Err(e) => status == Halted(e)
              case Ok(m') => status == Running && State() == m'
    {
      status := Running;
      match f.op {
        case 0x0 =>
          if f.nnn == 0x0E0 {
            ClearDisplay();
          } else if f.nnn == 0x0EE {
            if stack == [] {
              return Halted(StackUnderflow);
            }
            pc, stack := stack[|stack| - 1], stack[..|stack| - 1];
          }
        case 0x1 =>
          pc := f.nnn;
        case 0x2 =>
          stack := stack + [pc];
          pc := f.nnn;
        case 0x3 =>
          if registers[f.x] == f.nn {
            pc := pc + 2;
          }
        case 0x4 =>
          if registers[f.x] != f.nn {
            pc := pc + 2;
          }
        case 0x5 =>
          if registers[f.x] == registers[f.y] {
            pc := pc + 2;
          }
        case 0x9 =>
          if registers[f.x] != registers[f.y] {
            pc := pc + 2;
          }
        case 0x6 =>
          registers[f.x] := f.nn;
        case 0x7 =>
          if registers[f.x] + f.nn > 0xFF {
            registers[f.x] := 0xFF;
          } else {
            registers[f.x] := registers[f.x] + f.nn;
          }
        case 0xA =>
          index := f.nnn;
        case 0xC =>
          registers[f.x] := BitAnd(r, f.nn);
        case 0xD =>
          status := DrawSprite(f.x, f.y, f.n, State());
        case _ =>
      }
    }
  }
}
