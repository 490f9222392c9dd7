# CHIP-8 interpreter core, modelled in Dafny

This project models the interpreter at the heart of `src/main.rs`: the
machine state that `main` sets up, the copy of the ROM into memory, and one
cycle of the main loop. A cycle fetches a 16-bit word at `pc`, decodes its
operand fields, advances `pc` by 2, and dispatches on the high nibble. The
state is 4 KiB of memory, a 64×32 monochrome display, sixteen 8-bit
registers `V0`–`VF`, the 16-bit `pc` and index register `I`, and a return
stack.

The model has two layers:

- **Modules `Words`, `Decoding` and `Semantics`.** These give the reference
  semantics as values. A `Machine` datatype holds the state. `Exec` performs
  one cycle and `Run` performs a bounded sequence of cycles. Every way the
  Rust program can panic becomes a `Fault` in a `Result`:
  - a fetch past the end of memory;
  - `00EE` on an empty stack;
  - a sprite row read past the end of memory;
  - a ROM larger than the 3584 bytes from address 512.
- **Module `Properties`.** It proves what each instruction does to the state.
  It also proves what a small program does over any number of cycles.
- **Module `Interpreter`.** It holds the in-place interpreter as the source
  writes it: class `Chip8` with the memory, display and registers as arrays,
  and `pc`, `I` and the stack as fields. Its methods (`Load`,
  `ClearDisplay`, the nested drawing loops, `Step`) are proved to change
  the state exactly as `Semantics` says.

The model follows the code as written. Where it differs from the usual
CHIP-8 description:
- `7xnn` saturates at 255; it does not wrap around.
- `Dxyn` clips at the right edge and at the bottom. It never wraps.
- `Dxyn` ORs the sprite onto the display instead of XORing it. The first
  `if` switches a lit pixel off and sets `VF`; the second `if` then switches
  it back on.
- The draw loop stops after the row whose successor would be row 31 or more.
  So only a sprite that starts on row 31 draws on row 31.
- `5xy_` and `9xy_` do not look at their low nibble.
- The groups `8`, `B`, `E` and `F`, and every other `0nnn`, only advance `pc`.
- The stack is a growable vector with no depth limit.

## Model

| member | source | states |
|---|---|---|
| Words.BitAnd | src/main.rs:113 | `a & b` is at most each operand |
| Words.BitAndBits | src/main.rs:113 | a bit of `a & b` is set exactly when it is set in both `a` and `b` |
| Decoding.Fetch | src/main.rs:44-45 | the fetched word has `memory[pc]` as its high byte and `memory[pc + 1]` as its low byte |
| Decoding.Decode | src/main.rs:47-51 | `op`, `x`, `y`, `n` are nibbles; `nn` is the low byte (`y` then `n`); `nnn` is the low 12 bits (`x` then `nn`); the word is `op` followed by `nnn` |
| Decoding.DecodeEncode | src/main.rs:47-51 | decoding a word built from four nibbles gives those nibbles back, with the matching `nn` and `nnn` |
| Decoding.EncodeDecode | src/main.rs:47-51 | rebuilding a word from its decoded nibbles gives the word back |
| Decoding.DecodeDrawExample | src/main.rs:47-51 | `0xD12A` decodes to a draw with `x = 1`, `y = 2`, `n = 0xA` |
| Semantics.Blank | src/main.rs:27 | the start-up display has every pixel off |
| Semantics.PowerOn | src/main.rs:26-33 | at start-up every memory byte and register is 0, every pixel is off, `pc` is 512, `I` is 0 and the stack is empty |
| Semantics.Boot | src/main.rs:26-40 | start-up followed by the ROM copy succeeds exactly when the ROM fits in the 3584 bytes from 512, and then starts at `pc` 512 with an empty stack |
| Semantics.LoadImage | src/main.rs:38-40 | the copy succeeds exactly when the ROM fits in the 3584 bytes from 512; then the ROM sits at 512 onward and every other byte is unchanged |
| Semantics.SpriteRows | src/main.rs:121-148 | the number of rows `Dxyn` draws is at most `n`, is positive when `n` is, and stops at row 31 at the latest; fewer than `n` rows only when the next row would be 31 or more |
| Semantics.SpriteRowsExact | src/main.rs:121-148 | any row count meeting that description is the one the draw loop produces |
| Semantics.SpriteRowsAtLeast | src/main.rs:121-148 | a row the loop is about to draw is within the row count |
| Semantics.SpriteBit | src/main.rs:128 | column `j` of a sprite row is bit `7 - j`: a zero row has no 1s, column 0 is set exactly when the byte is at least `0x80`, and column 7 exactly when it is odd |
| Semantics.PaintRow | src/main.rs:125-143 | drawing one sprite row never switches a pixel off, and changes no pixel off row `cy` or outside the 8 columns from `x0` |
| Semantics.Drawn | src/main.rs:121-148 | drawing the rows one after another never switches a pixel off, and leaves every pixel outside the sprite's rows and 8 columns unchanged |
| Semantics.DrawnPixels | src/main.rs:121-148 | after a whole sprite, a pixel is on exactly when it was on or lies under a 1 of the sprite: an OR, never a toggle |
| Semantics.RowCollisionClipped | src/main.rs:138-140 | columns past the right edge add nothing to a row's collision |
| Semantics.RowCollision | src/main.rs:127-141 | a row collides only when it has a column on screen and is not all zeros, and never on a screen row whose pixels are all off |
| Semantics.Collision | src/main.rs:121-148 | a sprite collides only when it has a row and starts on screen, and never on a blank screen |
| Semantics.RowCollisionSameRow | src/main.rs:130-133 | a row's collision depends only on the pixels of that row |
| Semantics.SpriteGrows | src/main.rs:121-148 | one more row paints that row over the screen drawn so far and adds that row's collisions |
| Semantics.Draw | src/main.rs:115-150 | a successful draw yields a well-formed machine |
| Semantics.Execute | src/main.rs:57-152 | a successful dispatch yields a well-formed machine |
| Semantics.Exec | src/main.rs:42-152 | a successful cycle yields a well-formed machine |
| Semantics.Run | src/main.rs:42-152 | a run of cycles that succeeds yields a well-formed machine |
| Properties.FetchFault | src/main.rs:44-45 | a cycle faults in the fetch exactly when `pc + 1` is past the end of memory |
| Properties.ClearScreen | src/main.rs:59-65 | `00E0` turns every pixel off and changes only the display and `pc` |
| Properties.Return | src/main.rs:66-69 | `00EE` pops the top of the stack into `pc`; it faults exactly on an empty stack |
| Properties.Jump | src/main.rs:72-74 | `1nnn` sets `pc` to `nnn` and changes nothing else |
| Properties.Call | src/main.rs:75-78 | `2nnn` pushes the address of the next instruction, jumps to `nnn` whatever is stored there, and changes nothing else |
| Properties.CallThenReturn | src/main.rs:66-78 | when the target of `2nnn` holds `00EE`, the two cycles come back to the instruction after the call with the stack restored |
| Properties.ConditionalSkip | src/main.rs:79-98 | `3xnn`, `4xnn`, `5xy_`, `9xy_` advance `pc` by 4 exactly when their comparison holds, and by 2 otherwise |
| Properties.Unrecognised | src/main.rs:57-152 | groups `8`, `B`, `E`, `F` and other `0nnn` words only advance `pc` |
| Properties.LoadRegister | src/main.rs:99-101 | `6xnn` sets `Vx` to `nn` and changes nothing else but `pc` |
| Properties.AddSaturates | src/main.rs:102-108 | `7xnn` sets `Vx` to `Vx + nn` if that fits in a byte, else to 255; no register but `Vx` changes (so `VF` changes only when `x` is F) |
| Properties.SetIndex | src/main.rs:109-111 | `Annn` sets `I` to `nnn` and changes nothing else but `pc` |
| Properties.RandomMasked | src/main.rs:112-114 | `Cxnn` sets `Vx` to the random byte masked by `nn`, bit by bit, so `Vx <= nn` |
| Properties.DrawFault | src/main.rs:121-122 | `Dxyn` faults exactly when a row it would draw lies past the end of memory |
| Properties.DrawPixels | src/main.rs:115-150 | after `Dxyn`, a pixel is on exactly when it was on or lies under a 1 of the sprite read from `memory[I..]`; only the display, `VF` and `pc` change |
| Properties.DrawNeverClears | src/main.rs:130-136 | `Dxyn` never turns a pixel off |
| Properties.DrawFootprint | src/main.rs:117-148 | `Dxyn` changes no pixel outside the rectangle from `(Vx mod 64, Vy mod 32)` that is 8 columns wide and at most `n` rows tall, and passes row 30 only when it starts on row 31 |
| Properties.DrawCollisionFlag | src/main.rs:119-133 | after `Dxyn`, `VF` is 1 exactly when some 1 of the sprite lands on a lit pixel, and 0 otherwise |
| Properties.RowCollisionIffOverlap | src/main.rs:127-141 | a row's collision flag is the existence of a 1 inside the screen over a lit pixel |
| Properties.CollisionIffOverlap | src/main.rs:121-148 | the sprite's collision flag is the existence of a lit pixel under a 1 of the sprite |
| Properties.BootLoadsRom | src/main.rs:26-40 | loading succeeds exactly for a ROM of at most 3584 bytes; then the ROM is at 512, every other byte is 0, `pc` is 512, and all else is zero or empty |
| Properties.LoopRomStep | src/main.rs:42-152 | one cycle of `6005 1200` alternates `pc` between 512 and 514 and keeps `V0 = 5` |
| Properties.LoopRomRun | src/main.rs:42-152 | any number of cycles of `6005 1200` succeed, and `pc` follows the parity of the cycle count |
| Properties.LoopRomForever | src/main.rs:26-152 | booting `6005 1200` and running it never faults; `pc` is 512 after an even number of cycles, and `V0` is 5 after the first |
| Interpreter.Chip8.constructor | src/main.rs:26-33 | the new interpreter's state is the start-up state |
| Interpreter.Chip8.Load | src/main.rs:38-40 | copying the ROM byte by byte leaves the memory that `LoadImage` describes, or halts when it does not fit |
| Interpreter.Chip8.ClearDisplay | src/main.rs:59-65 | the nested loops leave every pixel off |
| Interpreter.Chip8.DrawBit | src/main.rs:128-136 | one column of a sprite row extends the painted columns by one and updates `VF` for that column |
| Interpreter.Chip8.DrawRow | src/main.rs:125-143 | the column loop paints the row as the reference does, and sets `VF` when the row collides |
| Interpreter.Chip8.DrawSpriteRow | src/main.rs:122-143 | one pass of the row loop reads `memory[I + i]` and leaves the display and `VF` as `Drawn` and `Collision` give for the rows read so far plus that one |
| Interpreter.Chip8.DrawRows | src/main.rs:121-149 | the row loop draws exactly the rows the reference draws, read from `memory[I..]`; it halts only when such a row lies past the end of memory |
| Interpreter.Chip8.DrawSprite | src/main.rs:115-150 | `Dxyn` in place does what `Draw` does: the same display, the same registers, the same fault |
| Interpreter.Chip8.Dispatch | src/main.rs:57-152 | the dispatch in place reaches the state `Execute` gives, or the fault it gives |
| Interpreter.Chip8.Step | src/main.rs:42-152 | one cycle in place reaches the state `Exec` gives, or halts with the fault it gives |

## Left out

- The delay and sound timers are declared but never read or written.
  `print_display` (the macroquad rendering) and the 5 ms sleep do not affect
  the state. None of them is modelled.
- Argument parsing and reading the ROM file are not modelled. The ROM is the
  parameter `file`.
- `random::<u8>()` is a parameter: `r` for one cycle, `rs[k]` for cycle `k`
  of a run.
- The main `loop` never ends. It is modelled one cycle at a time (`Step`,
  `Exec`) and as a bounded run of `|rs|` cycles (`Run`).
- The state after a panic is not modelled, because the process ends there.
  `Fault` names the panic, and the in-place methods return `Halted` with it.
- Interpreter.Chip8.Load: on a ROM that does not fit, the source has already
  copied the first 3584 bytes when it panics. The contract only says that the
  method halts, not what memory then holds.
- Interpreter.Chip8.Step: on a fault it states only the fault, not the state
  the arrays were left in.
- The `try_into().unwrap()` conversions of the decoded fields cannot fail:
  every field fits its target type. So they are not modelled as faults.
- `pc` cannot overflow its 16 bits. The fetch guarantees `pc + 1 < 4096`,
  so `pc + 2` and a following skip stay far below 65536. No wrap-around is
  modelled.
