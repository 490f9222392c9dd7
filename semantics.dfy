/** The interpreter's state as a value and one fetch-decode-execute cycle as a
    function of it (src/main.rs, lines 26-152). This is the reference that the
    in-place interpreter in module Interpreter is proved against. */
module Semantics {
  import opened Words
  import opened Decoding

  const MemorySize: nat := 4096
  /** Where the ROM is copied and where execution starts. */
  const ProgramStart: nat := 512
  const Width: nat := 64
  const Height: nat := 32
  const RegisterCount: nat := 16
  /** `VF`, the register the draw instruction writes its collision flag to. */
  const Flag: nat := 0xF

  /** The conditions under which the Rust program panics and the process ends. */
  datatype Fault =
    | RomTooLarge       // `memory[512 + i]` past the end while loading
    | PcOutOfRange      // `memory[pc]` or `memory[pc + 1]` past the end while fetching
    | StackUnderflow    // `stack.pop().unwrap()` on an empty stack
    | SpriteOutOfRange  // `memory[index_register + i]` past the end while drawing

  datatype Result<T> = Ok(value: T) | Err(fault: Fault)

  /** The display, indexed `[x][y]` like the source's `[[bool; 32]; 64]`. */
  type Screen = seq<seq<bool>>

  predicate ScreenShape(d: Screen) {
    |d| == Width && forall cx :: 0 <= cx < Width ==> |d[cx]| == Height
  }

  /** Everything one cycle reads or writes. */
  datatype Machine = Machine(
    memory: seq<byte>,
    display: Screen,
    v: seq<byte>,       // the registers V0..VF
    pc: u16,
    index: u16,         // the index register I
    stack: seq<u16>)    // the return stack, top at the end

  predicate WellFormed(m: Machine) {
    |m.memory| == MemorySize && ScreenShape(m.display) && |m.v| == RegisterCount
  }

  /** A display with every pixel off. */
  function Blank(): (d: Screen)
    ensures ScreenShape(d)
    ensures forall cx, cy :: 0 <= cx < Width && 0 <= cy < Height ==> !d[cx][cy]
  {
    seq(Width, _ => seq(Height, _ => false))
  }

  /** The memory after copying `file` to address 512 onward: a ROM that does
      not fit in the 3584 bytes from 512 to the end is fatal. */
  function LoadImage(memory: seq<byte>, file: seq<byte>): (r: Result<seq<byte>>)
    requires |memory| == MemorySize
    ensures r.Ok? <==> |file| <= MemorySize - ProgramStart
    ensures r.Ok? ==> |r.value| == MemorySize
    ensures r.Ok? ==> forall a :: 0 <= a < MemorySize ==>
              r.value[a] == if ProgramStart <= a < ProgramStart + |file| then file[a - ProgramStart] else memory[a]
  {
    if |file| > MemorySize - ProgramStart then Err(RomTooLarge)
    else Ok(memory[..ProgramStart] + file + memory[ProgramStart + |file|..])
  }

  /** The state right after start-up: all zero, the display off, `pc` at 512. */
  function PowerOn(): (m: Machine)
    ensures WellFormed(m)
    ensures forall a :: 0 <= a < MemorySize ==> m.memory[a] == 0
    ensures forall k :: 0 <= k < RegisterCount ==> m.v[k] == 0
    ensures forall cx, cy :: 0 <= cx < Width && 0 <= cy < Height ==> !m.display[cx][cy]
    ensures m.pc == ProgramStart && m.index == 0 && m.stack == []
  {
    Machine(seq(MemorySize, _ => 0), Blank(), seq(RegisterCount, _ => 0), ProgramStart, 0, [])
  }

  /** Start-up followed by loading the ROM `file`. */
  function Boot(file: seq<byte>): (r: Result<Machine>)
    ensures r.Ok? <==> |file| <= MemorySize - ProgramStart
    ensures r.Ok? ==> WellFormed(r.value) && r.value.pc == ProgramStart && r.value.stack == []
  {
    match LoadImage(PowerOn().memory, file)
    case Err(e) => Err(e)
    case Ok(mem) => Ok(PowerOn().(memory := mem))
  }

  /** Two displays that agree on every pixel are the same display. */
  lemma ScreensEqual(d: Screen, e: Screen)
    requires ScreenShape(d) && ScreenShape(e)
    requires forall cx, cy :: 0 <= cx < Width && 0 <= cy < Height ==> d[cx][cy] == e[cx][cy]
    ensures d == e
  {
    forall cx | 0 <= cx < Width ensures d[cx] == e[cx] {
      assert forall cy :: 0 <= cy < Height ==> d[cx][cy] == e[cx][cy];
    }
  }

  // ---------------------------------------------------------------- drawing

  /** How many sprite rows `Dxyn` draws when it starts at row `y0`: the loop
      over `0..n` ends after the row whose successor would be 31 or more. */
  function SpriteRows(n: nat, y0: nat): (rows: nat)
    requires y0 < Height
    ensures rows <= n && (n > 0 ==> rows > 0)
    ensures y0 + rows <= Height
    ensures rows > 1 ==> y0 + rows <= Height - 1
    ensures rows < n ==> y0 + rows >= Height - 1
  {
    if n == 0 then 0
    else if y0 + 1 >= Height - 1 then 1
    else if n < Height - 1 - y0 then n
    else Height - 1 - y0
  }

  /** The contract of `SpriteRows` determines it: a row count `k` that obeys
      it is the one the draw loop produces. */
  lemma SpriteRowsExact(n: nat, y0: nat, k: nat)
    requires y0 < Height
    requires k <= n && (n > 0 ==> k > 0)
    requires k > 1 ==> y0 + k <= Height - 1
    requires k < n ==> y0 + k >= Height - 1
    ensures SpriteRows(n, y0) == k
  {
  }

  /** While the draw loop runs, the row it is at is one the reference draws. */
  lemma SpriteRowsAtLeast(n: nat, y0: nat, i: nat)
    requires y0 < Height && i < n && (i == 0 || y0 + i < Height - 1)
    ensures i < SpriteRows(n, y0)
  {
  }

  /** The sprite read so far grows by the next row read from memory. */
  lemma NextRow(memory: seq<byte>, index: nat, i: nat)
    requires index + i < |memory|
    ensures memory[index..index + i + 1] == memory[index..index + i] + [memory[index + i]]
  {
  }

  /** `(row >> (7 - j)) & 1 == 1`: column `j` of a sprite row, most significant bit first. */
  predicate SpriteBit(row: byte, j: nat): (on: bool)
    requires j < 8
    ensures row == 0 ==> !on
    ensures j == 0 ==> (on <==> row >= 0x80)
    ensures j == 7 ==> (on <==> row % 2 == 1)
  {
    ShrByte(row, 7 - j);
    TestBit(row, 7 - j)
  }

  /** Shifting a byte right: nothing is left of 0, the top bit is `row >= 0x80`. */
  lemma ShrByte(row: byte, k: nat)
    requires k < 8
    ensures row == 0 ==> Shr(row, k) == 0
    ensures k == 7 ==> Shr(row, k) == row / 0x80
  {
    if k == 7 {
      var a1 := row / 2;
      var a2 := a1 / 2;
      var a3 := a2 / 2;
      var a4 := a3 / 2;
      var a5 := a4 / 2;
      var a6 := a5 / 2;
      var a7 := a6 / 2;
      assert Shr(a6, 1) == a7;
      assert Shr(a5, 2) == a7;
      assert Shr(a4, 3) == a7;
      assert Shr(a3, 4) == a7;
      assert Shr(a2, 5) == a7;
      assert Shr(a1, 6) == a7;
      assert a7 == row / 0x80;
    } else if row == 0 && k > 0 {
      ShrByte(0, k - 1);
    }
  }

  /** Whether the sprite drawn at `(x0, y0)` has a 1 over pixel `(cx, cy)`. */
  predicate Lit(sprite: seq<byte>, x0: nat, y0: nat, cx: nat, cy: nat) {
    y0 <= cy < y0 + |sprite| && x0 <= cx < x0 + 8 && SpriteBit(sprite[cy - y0], cx - x0)
  }

  /** The display after drawing one sprite row on row `cy` from column `x0`:
      the pixels under a 1 are on, every other pixel keeps its value. */
  function PaintRow(d: Screen, x0: nat, cy: nat, row: byte): (d': Screen)
    requires ScreenShape(d) && cy < Height
    ensures ScreenShape(d')
    ensures forall cx, py :: 0 <= cx < Width && 0 <= py < Height && d[cx][py] ==> d'[cx][py]
    ensures forall cx, py :: 0 <= cx < Width && 0 <= py < Height && (py != cy || cx < x0 || x0 + 8 <= cx) ==>
              d'[cx][py] == d[cx][py]
  {
    seq(Width, cx requires 0 <= cx < Width =>
      seq(Height, py requires 0 <= py < Height =>
        d[cx][py] || (py == cy && x0 <= cx < x0 + 8 && SpriteBit(row, cx - x0))))
  }

  /** The pixels of a painted row, one by one. */
  lemma PaintRowPixels(d: Screen, x0: nat, cy: nat, row: byte)
    requires ScreenShape(d) && cy < Height
    ensures forall cx, py :: 0 <= cx < Width && 0 <= py < Height ==>
              PaintRow(d, x0, cy, row)[cx][py] == (d[cx][py] || (py == cy && x0 <= cx < x0 + 8 && SpriteBit(row, cx - x0)))
  {
  }

  /** The display after drawing `sprite` at `(x0, y0)`, row after row. */
  function Drawn(d: Screen, x0: nat, y0: nat, sprite: seq<byte>): (d': Screen)
    requires ScreenShape(d) && y0 + |sprite| <= Height
    ensures ScreenShape(d')
    ensures forall cx, cy :: 0 <= cx < Width && 0 <= cy < Height && d[cx][cy] ==> d'[cx][cy]
    ensures forall cx, cy :: 0 <= cx < Width && 0 <= cy < Height && (cy < y0 || y0 + |sprite| <= cy || cx < x0 || x0 + 8 <= cx) ==>
              d'[cx][cy] == d[cx][cy]
  {
    if sprite == [] then d
    else PaintRow(Drawn(d, x0, y0, sprite[..|sprite| - 1]), x0, y0 + |sprite| - 1, sprite[|sprite| - 1])
  }

  /** Drawing a sprite turns on exactly the pixels under its 1s and keeps
      every other pixel: the effect is an OR, never a toggle. */
  lemma {:induction false} DrawnPixels(d: Screen, x0: nat, y0: nat, sprite: seq<byte>)
    requires ScreenShape(d) && y0 + |sprite| <= Height
    ensures forall cx, cy :: 0 <= cx < Width && 0 <= cy < Height ==>
              Drawn(d, x0, y0, sprite)[cx][cy] == (d[cx][cy] || Lit(sprite, x0, y0, cx, cy))
  {
    if sprite != [] {
      var pre := sprite[..|sprite| - 1];
      DrawnPixels(d, x0, y0, pre);
      forall cx, cy | 0 <= cx < Width && 0 <= cy < Height
        ensures Drawn(d, x0, y0, sprite)[cx][cy] == (d[cx][cy] || Lit(sprite, x0, y0, cx, cy))
      {
        if y0 <= cy < y0 + |pre| {
          assert sprite[cy - y0] == pre[cy - y0];
        }
      }
    }
  }

  /** Whether some 1 among the first `cols` columns of `row`, drawn on row `cy`
      from column `x0`, lands on a pixel that is on; columns past the right
      edge are not drawn. */
  function RowCollision(d: Screen, x0: nat, cy: nat, row: byte, cols: nat): (hit: bool)
    requires ScreenShape(d) && cy < Height && cols <= 8
    ensures hit ==> 0 < cols && x0 < Width && row != 0
    ensures (forall cx :: 0 <= cx < Width ==> !d[cx][cy]) ==> !hit
  {
    if cols == 0 then false
    else RowCollision(d, x0, cy, row, cols - 1) ||
         (x0 + cols - 1 < Width && SpriteBit(row, cols - 1) && d[x0 + cols - 1][cy])
  }

  /** Columns past the right edge add nothing to a row's collision. */
  lemma {:induction false} RowCollisionClipped(d: Screen, x0: nat, cy: nat, row: byte, cols: nat)
    requires ScreenShape(d) && cy < Height && cols <= 8 && x0 + cols >= Width
    ensures RowCollision(d, x0, cy, row, cols) == RowCollision(d, x0, cy, row, 8)
    decreases 8 - cols
  {
    if cols < 8 {
      RowCollisionClipped(d, x0, cy, row, cols + 1);
    }
  }

  /** A row's collision depends only on the pixels of that row. */
  lemma {:induction false} RowCollisionSameRow(d: Screen, e: Screen, x0: nat, cy: nat, row: byte, cols: nat)
    requires ScreenShape(d) && ScreenShape(e) && cy < Height && cols <= 8
    requires forall cx :: 0 <= cx < Width ==> d[cx][cy] == e[cx][cy]
    ensures RowCollision(d, x0, cy, row, cols) == RowCollision(e, x0, cy, row, cols)
  {
    if cols > 0 {
      RowCollisionSameRow(d, e, x0, cy, row, cols - 1);
    }
  }

  /** Whether drawing `sprite` at `(x0, y0)` over `d` meets a pixel that is on,
      row by row in the order the draw loop visits them. */
  function Collision(d: Screen, x0: nat, y0: nat, sprite: seq<byte>): (hit: bool)
    requires ScreenShape(d) && y0 + |sprite| <= Height
    ensures hit ==> sprite != [] && x0 < Width
    ensures (forall cx, cy :: 0 <= cx < Width && 0 <= cy < Height ==> !d[cx][cy]) ==> !hit
  {
    if sprite == [] then false
    else Collision(d, x0, y0, sprite[..|sprite| - 1]) ||
         RowCollision(d, x0, y0 + |sprite| - 1, sprite[|sprite| - 1], 8)
  }

  /** Adding a row to a sprite paints that row over the sprite drawn so far,
      and adds the collisions of that row against the screen as drawn so far,
      which on that row is still the original screen. */
  lemma SpriteGrows(d: Screen, x0: nat, y0: nat, sprite: seq<byte>, row: byte, cy: nat)
    requires ScreenShape(d) && cy == y0 + |sprite| < Height
    ensures Drawn(d, x0, y0, sprite + [row]) == PaintRow(Drawn(d, x0, y0, sprite), x0, cy, row)
    ensures Collision(d, x0, y0, sprite + [row]) ==
            (Collision(d, x0, y0, sprite) || RowCollision(Drawn(d, x0, y0, sprite), x0, cy, row, 8))
  {
    assert (sprite + [row])[..|sprite|] == sprite;
    DrawnPixels(d, x0, y0, sprite);
    RowCollisionSameRow(Drawn(d, x0, y0, sprite), d, x0, cy, row, 8);
  }

  /** `Dxyn`: draw `n` rows of sprite from `memory[I..]` at `(Vx mod 64, Vy mod 32)`,
      clipped at the edges; `VF` records whether a 1 landed on a lit pixel. */
  function Draw(m: Machine, x: nat, y: nat, n: nat): (r: Result<Machine>)
    requires WellFormed(m) && x < RegisterCount && y < RegisterCount
    ensures r.Ok? ==> WellFormed(r.value)
  {
    var x0 := m.v[x] % Width;
    var y0 := m.v[y] % Height;
    var rows := SpriteRows(n, y0);
    if rows > 0 && m.index + rows > MemorySize then Err(SpriteOutOfRange)
    else
      var sprite := if rows == 0 then [] else m.memory[m.index..m.index + rows];
      Ok(m.(display := Drawn(m.display, x0, y0, sprite),
            v := m.v[Flag := if Collision(m.display, x0, y0, sprite) then 1 else 0]))
  }

  /** `Draw` in terms of the rows it reads, when they are all in memory. */
  lemma DrawSucceeds(m: Machine, x: nat, y: nat, n: nat, sprite: seq<byte>)
    requires WellFormed(m) && x < RegisterCount && y < RegisterCount
    requires |sprite| == SpriteRows(n, m.v[y] % Height)
    requires |sprite| > 0 ==> m.index + |sprite| <= MemorySize && sprite == m.memory[m.index..m.index + |sprite|]
    ensures Draw(m, x, y, n) ==
            Ok(m.(display := Drawn(m.display, m.v[x] % Width, m.v[y] % Height, sprite),
                  v := m.v[Flag := if Collision(m.display, m.v[x] % Width, m.v[y] % Height, sprite) then 1 else 0]))
  {
  }

  // ---------------------------------------------------------------- one cycle

  /** The dispatch on the high nibble, applied after `pc` has been advanced. */
  function Execute(m: Machine, f: Fields, r: byte): (res: Result<Machine>)
    requires WellFormed(m) && m.pc <= MemorySize
    requires f.x < RegisterCount && f.y < RegisterCount && f.n < 16
    requires f.nn < 256 && f.nnn < MemorySize
    ensures res.Ok? ==> WellFormed(res.value)
  {
    if f.op == 0x0 then
      if f.nnn == 0x0E0 then Ok(m.(display := Blank()))
      else if f.nnn == 0x0EE then
        if m.stack == [] then Err(StackUnderflow)
        else Ok(m.(pc := m.stack[|m.stack| - 1], stack := m.stack[..|m.stack| - 1]))
      else Ok(m)
    else if f.op == 0x1 then Ok(m.(pc := f.nnn))
    else if f.op == 0x2 then Ok(m.(stack := m.stack + [m.pc], pc := f.nnn))
    else if f.op == 0x3 then Ok(if m.v[f.x] == f.nn then m.(pc := m.pc + 2) else m)
    else if f.op == 0x4 then Ok(if m.v[f.x] != f.nn then m.(pc := m.pc + 2) else m)
    else if f.op == 0x5 then Ok(if m.v[f.x] == m.v[f.y] then m.(pc := m.pc + 2) else m)
    else if f.op == 0x9 then Ok(if m.v[f.x] != m.v[f.y] then m.(pc := m.pc + 2) else m)
    else if f.op == 0x6 then Ok(m.(v := m.v[f.x := f.nn]))
    else if f.op == 0x7 then
      Ok(m.(v := m.v[f.x := if m.v[f.x] + f.nn > 0xFF then 0xFF else m.v[f.x] + f.nn]))
    else if f.op == 0xA then Ok(m.(index := f.nnn))
    else if f.op == 0xC then Ok(m.(v := m.v[f.x := BitAnd(r, f.nn)]))
    else if f.op == 0xD then Draw(m, f.x, f.y, f.n)
    else Ok(m)
  }

  /** One cycle of the main loop; `r` stands for the value of `random::<u8>()`. */
  function Exec(m: Machine, r: byte): (res: Result<Machine>)
    requires WellFormed(m)
    ensures res.Ok? ==> WellFormed(res.value)
  {
    if m.pc + 1 >= MemorySize then Err(PcOutOfRange)
    else
      var f := Decode(Fetch(m.memory[m.pc], m.memory[m.pc + 1]));
      Execute(m.(pc := m.pc + 2), f, r)
  }

  /** A cycle whose fetch succeeds dispatches the fetched word with `pc` advanced by 2. */
  lemma ExecFetched(m: Machine, r: byte)
    requires WellFormed(m) && m.pc + 1 < MemorySize
    ensures Exec(m, r) == Execute(m.(pc := m.pc + 2), Decode(Fetch(m.memory[m.pc], m.memory[m.pc + 1])), r)
  {
  }

  /** `|rs|` cycles, the `k`-th drawing its random byte from `rs[k]`; the first
      fault ends the run. */
  function Run(m: Machine, rs: seq<byte>): (res: Result<Machine>)
    requires WellFormed(m)
    ensures res.Ok? ==> WellFormed(res.value)
    decreases |rs|
  {
    if rs == [] then Ok(m)
    else
      match Exec(m, rs[0])
      case Err(e) => Err(e)
      case Ok(next) => Run(next, rs[1..])
  }
}
