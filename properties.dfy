/** What one cycle does, instruction by instruction, and what a short program
    does over many cycles: lemmas about the reference semantics of module
    Semantics. */
module Properties {
  import opened Words
  import opened Decoding
  import opened Semantics

  /** `pc` points at two bytes in memory that hold the word `w`. */
  predicate InstructionAt(m: Machine, w: u16)
    requires WellFormed(m)
  {
    m.pc + 1 < MemorySize && Fetch(m.memory[m.pc], m.memory[m.pc + 1]) == w
  }

  // ---------------------------------------------------------------- fetch

  /** A cycle faults in the fetch exactly when `pc + 1` is past the end of memory. */
  lemma FetchFault(m: Machine, r: byte)
    requires WellFormed(m)
    ensures Exec(m, r) == Err(PcOutOfRange) <==> m.pc + 1 >= MemorySize
  {
  }

  // ---------------------------------------------------------------- control flow

  /** `00E0` turns every pixel off and changes nothing but the display and `pc`. */
  lemma ClearScreen(m: Machine, r: byte)
    requires WellFormed(m) && InstructionAt(m, 0x00E0)
    ensures Exec(m, r).Ok?
    ensures Exec(m, r).value == m.(pc := m.pc + 2, display := Exec(m, r).value.display)
    ensures forall cx, cy :: 0 <= cx < Width && 0 <= cy < Height ==> !Exec(m, r).value.display[cx][cy]
  {
  }

  /** `00EE` pops the return address into `pc`, and is fatal on an empty stack. */
  lemma Return(m: Machine, r: byte)
    requires WellFormed(m) && InstructionAt(m, 0x00EE)
    ensures Exec(m, r).Err? <==> m.stack == []
    ensures m.stack == [] ==> Exec(m, r) == Err(StackUnderflow)
    ensures m.stack != [] ==> Exec(m, r) == Ok(m.(pc := m.stack[|m.stack| - 1], stack := m.stack[..|m.stack| - 1]))
  {
  }

  /** `1nnn` sets `pc` to `nnn` and changes nothing else. */
  lemma Jump(m: Machine, w: u16, r: byte)
    requires WellFormed(m) && InstructionAt(m, w) && w / 4096 == 0x1
    ensures Exec(m, r) == Ok(m.(pc := w % 4096))
  {
  }

  /** `2nnn` saves the address of the next instruction on the stack, jumps to
      `nnn` whatever is stored there, and changes nothing else. */
  lemma Call(m: Machine, w: u16, r: byte)
    requires WellFormed(m) && InstructionAt(m, w) && w / 4096 == 0x2
    ensures Exec(m, r) == Ok(m.(pc := w % 4096, stack := m.stack + [m.pc + 2]))
  {
  }

  /** A `2nnn` whose target holds `00EE` returns to the instruction after the
      call, with the stack as it was before the call. */
  lemma CallThenReturn(m: Machine, w: u16, r1: byte, r2: byte)
    requires WellFormed(m) && InstructionAt(m, w) && w / 4096 == 0x2
    requires w % 4096 + 1 < MemorySize
    requires m.memory[w % 4096] == 0x00 && m.memory[w % 4096 + 1] == 0xEE
    ensures Exec(m, r1).Ok?
    ensures Exec(m, r1).value == m.(pc := w % 4096, stack := m.stack + [m.pc + 2])
    ensures Exec(Exec(m, r1).value, r2) == Ok(m.(pc := m.pc + 2))
  {
    var called := Exec(m, r1).value;
    assert InstructionAt(called, 0x00EE);
    assert called.stack[..|called.stack| - 1] == m.stack;
  }

  /** `3xnn`, `4xnn`, `5xy_` and `9xy_` skip the next instruction (advance `pc`
      by 4 instead of 2) exactly when `Vx == nn`, `Vx != nn`, `Vx == Vy`,
      `Vx != Vy` respectively; the low nibble of `5xy_`/`9xy_` is not checked. */
  lemma ConditionalSkip(m: Machine, w: u16, r: byte)
    requires WellFormed(m) && InstructionAt(m, w)
    requires w / 4096 in {0x3, 0x4, 0x5, 0x9}
    ensures var x, y, nn := (w / 256) % 16, (w / 16) % 16, w % 256;
            Exec(m, r) == Ok(m.(pc := m.pc + 2)) ||
            Exec(m, r) == Ok(m.(pc := m.pc + 4))
    ensures var x, y, nn := (w / 256) % 16, (w / 16) % 16, w % 256;
            Exec(m, r) == Ok(m.(pc := m.pc + 4)) <==>
              (w / 4096 == 0x3 && m.v[x] == nn) ||
              (w / 4096 == 0x4 && m.v[x] != nn) ||
              (w / 4096 == 0x5 && m.v[x] == m.v[y]) ||
              (w / 4096 == 0x9 && m.v[x] != m.v[y])
  {
  }

  /** Everything outside the groups `0`, `1`-`7`, `9`, `A`, `C`, `D` (that is the
      groups `8`, `B`, `E`, `F`), and every `0nnn` other than `00E0`/`00EE`,
      only advances `pc`. */
  lemma Unrecognised(m: Machine, w: u16, r: byte)
    requires WellFormed(m) && InstructionAt(m, w)
    requires w / 4096 in {0x8, 0xB, 0xE, 0xF} || (w / 4096 == 0x0 && w != 0x00E0 && w != 0x00EE)
    ensures Exec(m, r) == Ok(m.(pc := m.pc + 2))
  {
  }

  // ---------------------------------------------------------------- registers

  /** `6xnn` sets `Vx` to `nn`; no other register and nothing else but `pc` changes. */
  lemma LoadRegister(m: Machine, w: u16, r: byte)
    requires WellFormed(m) && InstructionAt(m, w) && w / 4096 == 0x6
    ensures Exec(m, r) == Ok(m.(pc := m.pc + 2, v := m.v[(w / 256) % 16 := w % 256]))
  {
  }

  /** `7xnn` adds `nn` to `Vx` saturating at 255 instead of wrapping; `VF` is
      not a carry flag here: only `Vx` and `pc` change. */
  lemma AddSaturates(m: Machine, w: u16, r: byte)
    requires WellFormed(m) && InstructionAt(m, w) && w / 4096 == 0x7
    ensures Exec(m, r).Ok?
    ensures var x := (w / 256) % 16;
            Exec(m, r).value == m.(pc := m.pc + 2, v := m.v[x := Exec(m, r).value.v[x]])
    ensures var x, nn := (w / 256) % 16, w % 256;
            var vx := Exec(m, r).value.v[x];
            m.v[x] <= vx &&
            (m.v[x] + nn <= 0xFF ==> vx == m.v[x] + nn) &&
            (m.v[x] + nn > 0xFF ==> vx == 0xFF)
  {
  }

  /** `Annn` sets `I` to `nnn` and changes nothing else but `pc`. */
  lemma SetIndex(m: Machine, w: u16, r: byte)
    requires WellFormed(m) && InstructionAt(m, w) && w / 4096 == 0xA
    ensures Exec(m, r) == Ok(m.(pc := m.pc + 2, index := w % 4096))
  {
  }

  /** `Cxnn` sets `Vx` to the random byte masked by `nn`: a bit of `Vx` is set
      exactly when it is set in both, so `Vx <= nn`; nothing else but `pc` changes. */
  lemma RandomMasked(m: Machine, w: u16, r: byte)
    requires WellFormed(m) && InstructionAt(m, w) && w / 4096 == 0xC
    ensures Exec(m, r).Ok?
    ensures var x := (w / 256) % 16;
            Exec(m, r).value == m.(pc := m.pc + 2, v := m.v[x := Exec(m, r).value.v[x]])
    ensures var x, nn := (w / 256) % 16, w % 256;
            var vx := Exec(m, r).value.v[x];
            vx <= nn && forall k :: TestBit(vx, k) <==> TestBit(r, k) && TestBit(nn, k)
  {
    var x, nn := (w / 256) % 16, w % 256;
    assert Exec(m, r).value.v[x] == BitAnd(r, nn);
    forall k: nat ensures TestBit(BitAnd(r, nn), k) <==> TestBit(r, k) && TestBit(nn, k) {
      BitAndBits(r, nn, k);
    }
  }

  // ---------------------------------------------------------------- drawing

  /** Whether a 1 of row `cy - y0` of the sprite at `memory[I..]`, drawn from
      `(x0, y0)` with `rows` rows, lies over pixel `(cx, cy)`. */
  predicate UnderSprite(m: Machine, x0: nat, y0: nat, rows: nat, cx: nat, cy: nat)
    requires WellFormed(m) && (rows == 0 || m.index + rows <= MemorySize)
  {
    y0 <= cy < y0 + rows && x0 <= cx < x0 + 8 &&
    SpriteBit(m.memory[m.index + (cy - y0)], cx - x0)
  }

  /** The `rows` sprite rows `Dxyn` reads from `memory[I..]`. */
  function SpriteAt(m: Machine, rows: nat): (sprite: seq<byte>)
    requires WellFormed(m) && (rows == 0 || m.index + rows <= MemorySize)
    ensures |sprite| == rows
    ensures forall i :: 0 <= i < rows ==> sprite[i] == m.memory[m.index + i]
  {
    if rows == 0 then [] else m.memory[m.index..m.index + rows]
  }

  /** A 1 of the sprite read from memory lies over a pixel exactly when `UnderSprite` says so. */
  lemma LitUnderSprite(m: Machine, x0: nat, y0: nat, rows: nat)
    requires WellFormed(m) && (rows == 0 || m.index + rows <= MemorySize)
    ensures forall cx, cy :: 0 <= cx < Width && 0 <= cy < Height ==>
              Lit(SpriteAt(m, rows), x0, y0, cx, cy) == UnderSprite(m, x0, y0, rows, cx, cy)
  {
  }

  /** A successful `Dxyn` cycle, in terms of the rows it reads. */
  lemma ExecDraw(m: Machine, w: u16, r: byte)
    requires WellFormed(m) && InstructionAt(m, w) && w / 4096 == 0xD
    requires Exec(m, r).Ok?
    ensures var x0, y0 := m.v[(w / 256) % 16] % Width, m.v[(w / 16) % 16] % Height;
            var rows := SpriteRows(w % 16, y0);
            (rows == 0 || m.index + rows <= MemorySize) && y0 + rows <= Height &&
            Exec(m, r).value ==
              m.(pc := m.pc + 2,
                 display := Drawn(m.display, x0, y0, SpriteAt(m, rows)),
                 v := m.v[Flag := if Collision(m.display, x0, y0, SpriteAt(m, rows)) then 1 else 0])
  {
    assert Exec(m, r) == Draw(m.(pc := m.pc + 2), (w / 256) % 16, (w / 16) % 16, w % 16);
  }

  /** `Dxyn` is fatal exactly when one of the rows it draws would be read from
      past the end of memory. */
  lemma DrawFault(m: Machine, w: u16, r: byte)
    requires WellFormed(m) && InstructionAt(m, w) && w / 4096 == 0xD
    ensures var x0, y0 := m.v[(w / 256) % 16] % Width, m.v[(w / 16) % 16] % Height;
            var rows := SpriteRows(w % 16, y0);
            Exec(m, r).Err? <==> rows > 0 && m.index + rows > MemorySize
    ensures Exec(m, r).Err? ==> Exec(m, r).fault == SpriteOutOfRange
  {
  }

  /** `Dxyn` with the sprite in memory: row `i` comes from `memory[I + i]`, a
      pixel under a 1 is on afterwards, every other pixel keeps its value (so
      drawing ORs rather than XORs), and only the display, `VF` and `pc` change. */
  lemma DrawPixels(m: Machine, w: u16, r: byte)
    requires WellFormed(m) && InstructionAt(m, w) && w / 4096 == 0xD
    requires Exec(m, r).Ok?
    ensures var x0, y0 := m.v[(w / 256) % 16] % Width, m.v[(w / 16) % 16] % Height;
            var rows := SpriteRows(w % 16, y0);
            var after := Exec(m, r).value;
            (rows == 0 || m.index + rows <= MemorySize) &&
            forall cx, cy :: 0 <= cx < Width && 0 <= cy < Height ==>
              after.display[cx][cy] == (m.display[cx][cy] || UnderSprite(m, x0, y0, rows, cx, cy))
    ensures var after := Exec(m, r).value;
            after == m.(pc := m.pc + 2, display := after.display, v := m.v[Flag := after.v[Flag]])
  {
    var x0, y0 := m.v[(w / 256) % 16] % Width, m.v[(w / 16) % 16] % Height;
    var rows := SpriteRows(w % 16, y0);
    ExecDraw(m, w, r);
    DrawnPixels(m.display, x0, y0, SpriteAt(m, rows));
    LitUnderSprite(m, x0, y0, rows);
  }

  /** `Dxyn` never turns a pixel off. */
  lemma DrawNeverClears(m: Machine, w: u16, r: byte)
    requires WellFormed(m) && InstructionAt(m, w) && w / 4096 == 0xD
    requires Exec(m, r).Ok?
    ensures forall cx, cy :: 0 <= cx < Width && 0 <= cy < Height && m.display[cx][cy] ==>
              Exec(m, r).value.display[cx][cy]
  {
    DrawPixels(m, w, r);
  }

  /** `Dxyn` changes no pixel outside the rectangle it draws in: it starts at
      `(Vx mod 64, Vy mod 32)`, each row stops at column 63, at most `n` rows are
      drawn, and the rows stop before row 31 unless the sprite starts there. */
  lemma DrawFootprint(m: Machine, w: u16, r: byte)
    requires WellFormed(m) && InstructionAt(m, w) && w / 4096 == 0xD
    requires Exec(m, r).Ok?
    ensures var x0, y0 := m.v[(w / 256) % 16] % Width, m.v[(w / 16) % 16] % Height;
            var rows := SpriteRows(w % 16, y0);
            rows <= w % 16 &&
            (y0 + rows > Height - 1 ==> y0 == Height - 1) &&
            forall cx, cy :: 0 <= cx < Width && 0 <= cy < Height &&
                             Exec(m, r).value.display[cx][cy] != m.display[cx][cy] ==>
              x0 <= cx <= x0 + 7 && y0 <= cy < y0 + rows
  {
    DrawPixels(m, w, r);
  }

  /** `Dxyn` leaves `VF` at 1 exactly when some 1 of the sprite lands on a pixel
      that was on, and at 0 otherwise. */
  lemma DrawCollisionFlag(m: Machine, w: u16, r: byte)
    requires WellFormed(m) && InstructionAt(m, w) && w / 4096 == 0xD
    requires Exec(m, r).Ok?
    ensures var x0, y0 := m.v[(w / 256) % 16] % Width, m.v[(w / 16) % 16] % Height;
            var rows := SpriteRows(w % 16, y0);
            var vf := Exec(m, r).value.v[Flag];
            (rows == 0 || m.index + rows <= MemorySize) &&
            (vf == 0 || vf == 1) &&
            (vf == 1 <==> exists cx, cy :: 0 <= cx < Width && 0 <= cy < Height &&
                            UnderSprite(m, x0, y0, rows, cx, cy) && m.display[cx][cy])
  {
    var x0, y0 := m.v[(w / 256) % 16] % Width, m.v[(w / 16) % 16] % Height;
    var rows := SpriteRows(w % 16, y0);
    ExecDraw(m, w, r);
    CollisionIffOverlap(m.display, x0, y0, SpriteAt(m, rows));
    LitUnderSprite(m, x0, y0, rows);
  }

  /** The first `cols` columns of `row` meet a lit pixel exactly when one of
      their 1s, inside the screen, lies over a pixel that is on. */
  lemma {:induction false} RowCollisionIffOverlap(d: Screen, x0: nat, cy: nat, row: byte, cols: nat)
    requires ScreenShape(d) && cy < Height && cols <= 8
    ensures RowCollision(d, x0, cy, row, cols) <==>
            exists j :: 0 <= j < cols && x0 + j < Width && SpriteBit(row, j) && d[x0 + j][cy]
  {
    if cols > 0 {
      RowCollisionIffOverlap(d, x0, cy, row, cols - 1);
      if RowCollision(d, x0, cy, row, cols) && !RowCollision(d, x0, cy, row, cols - 1) {
        var j := cols - 1;
        assert x0 + j < Width && SpriteBit(row, j) && d[x0 + j][cy];
      }
    }
  }

  /** The collision flag computed row by row is the existence of a lit pixel
      under a 1 of the sprite. */
  lemma {:induction false} CollisionIffOverlap(d: Screen, x0: nat, y0: nat, sprite: seq<byte>)
    requires ScreenShape(d) && y0 + |sprite| <= Height
    ensures Collision(d, x0, y0, sprite) <==>
            exists cx, cy :: 0 <= cx < Width && 0 <= cy < Height &&
                             Lit(sprite, x0, y0, cx, cy) && d[cx][cy]
  {
    if sprite != [] {
      var pre, last := sprite[..|sprite| - 1], sprite[|sprite| - 1];
      var cyLast := y0 + |sprite| - 1;
      CollisionIffOverlap(d, x0, y0, pre);
      RowCollisionIffOverlap(d, x0, cyLast, last, 8);
      // Every pixel under `pre` is under `sprite`.
      forall cx: nat, cy: nat | Lit(pre, x0, y0, cx, cy) ensures Lit(sprite, x0, y0, cx, cy) {
        assert sprite[cy - y0] == pre[cy - y0];
      }
      if Collision(d, x0, y0, sprite) {
        if !Collision(d, x0, y0, pre) {
          var j :| 0 <= j < 8 && x0 + j < Width && SpriteBit(last, j) && d[x0 + j][cyLast];
          assert Lit(sprite, x0, y0, x0 + j, cyLast);
        }
      } else {
        forall cx, cy | 0 <= cx < Width && 0 <= cy < Height && Lit(sprite, x0, y0, cx, cy)
          ensures !d[cx][cy]
        {
          if cy < cyLast {
            assert sprite[cy - y0] == pre[cy - y0];
            assert Lit(pre, x0, y0, cx, cy);
          } else {
            var j := cx - x0;
            assert 0 <= j < 8 && x0 + j < Width && SpriteBit(last, j);
          }
        }
      }
    }
  }

  // ---------------------------------------------------------------- loading and running

  /** Loading fails exactly for a ROM over 3584 bytes; otherwise the ROM sits at
      512 onward, every other byte is 0, and execution starts at 512 with
      zero registers, an empty stack and a blank display. */
  lemma BootLoadsRom(file: seq<byte>)
    ensures Boot(file).Ok? <==> |file| <= MemorySize - ProgramStart
    ensures Boot(file).Ok? ==>
              var m := Boot(file).value;
              m.pc == ProgramStart && m.index == 0 && m.stack == [] &&
              (forall k :: 0 <= k < RegisterCount ==> m.v[k] == 0) &&
              (forall cx, cy :: 0 <= cx < Width && 0 <= cy < Height ==> !m.display[cx][cy]) &&
              (forall i :: 0 <= i < |file| ==> m.memory[ProgramStart + i] == file[i]) &&
              (forall a :: 0 <= a < MemorySize && !(ProgramStart <= a < ProgramStart + |file|) ==>
                 m.memory[a] == 0)
  {
    if |file| <= MemorySize - ProgramStart {
      var m := Boot(file).value;
      forall i | 0 <= i < |file| ensures m.memory[ProgramStart + i] == file[i] {
        assert ProgramStart <= ProgramStart + i < ProgramStart + |file|;
      }
    }
  }

  /** The two-instruction ROM `6005 1200`: `V0 = 5`, then jump back to 512. */
  const LoopRom: seq<byte> := [0x60, 0x05, 0x12, 0x00]

  /** A machine that holds `LoopRom` at 512 and stands at one of its two
      instructions (at the second only once `V0` is 5). */
  predicate InLoop(m: Machine) {
    WellFormed(m) &&
    m.memory[ProgramStart..ProgramStart + 4] == LoopRom &&
    (m.pc == ProgramStart || (m.pc == ProgramStart + 2 && m.v[0] == 5))
  }

  /** One cycle of `LoopRom` alternates `pc` between 512 and 514 and keeps `V0 = 5`
      once set. */
  lemma LoopRomStep(m: Machine, r: byte)
    requires InLoop(m)
    ensures Exec(m, r).Ok? && InLoop(Exec(m, r).value)
    ensures Exec(m, r).value.pc == if m.pc == ProgramStart then ProgramStart + 2 else ProgramStart
    ensures Exec(m, r).value.v[0] == 5
  {
    ghost var rom := m.memory[ProgramStart..ProgramStart + 4];
    assert rom[0] == m.memory[ProgramStart] && rom[1] == m.memory[ProgramStart + 1];
    assert rom[2] == m.memory[ProgramStart + 2] && rom[3] == m.memory[ProgramStart + 3];
    assert m.memory[ProgramStart] == 0x60 && m.memory[ProgramStart + 1] == 0x05;
    assert m.memory[ProgramStart + 2] == 0x12 && m.memory[ProgramStart + 3] == 0x00;
    var next := Exec(m, r).value;
    assert next.memory == m.memory;
  }

  /** A run that is not empty is its first cycle followed by the rest. */
  lemma RunFirst(m: Machine, rs: seq<byte>)
    requires WellFormed(m) && rs != [] && Exec(m, rs[0]).Ok?
    ensures Run(m, rs) == Run(Exec(m, rs[0]).value, rs[1..])
    ensures |rs| == 1 ==> Run(m, rs) == Exec(m, rs[0])
  {
  }

  /** Any number of cycles of `LoopRom` from one of its instructions succeed and
      leave `pc` at 512 or 514 according to the parity of the cycle count. */
  lemma {:induction false} LoopRomRun(m: Machine, rs: seq<byte>)
    requires InLoop(m)
    ensures Run(m, rs).Ok? && InLoop(Run(m, rs).value)
    ensures Run(m, rs).value.pc == ProgramStart <==> (|rs| % 2 == 0 <==> m.pc == ProgramStart)
    ensures |rs| > 0 ==> Run(m, rs).value.v[0] == 5
    decreases |rs|
  {
    if rs != [] {
      assert (|rs| - 1) % 2 == 0 <==> |rs| % 2 == 1;
      LoopRomStep(m, rs[0]);
      var next := Exec(m, rs[0]).value;
      LoopRomRun(next, rs[1..]);
      RunFirst(m, rs);
    }
  }

  /** Booting `6005 1200` and running it for any number of cycles: `V0` is 5
      after the first cycle, and `pc` is back at 512 after every second one. */
  lemma LoopRomForever(rs: seq<byte>)
    ensures Boot(LoopRom).Ok?
    ensures Run(Boot(LoopRom).value, rs).Ok?
    ensures Run(Boot(LoopRom).value, rs).value.pc == if |rs| % 2 == 0 then ProgramStart else ProgramStart + 2
    ensures |rs| > 0 ==> Run(Boot(LoopRom).value, rs).value.v[0] == 5
  {
    BootLoadsRom(LoopRom);
    var m := Boot(LoopRom).value;
    assert m.memory[ProgramStart..ProgramStart + 4] == LoopRom;
    LoopRomRun(m, rs);
  }
}
