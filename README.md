# Ichiglyph and Brainfuck: interpreters and transpilers

Ichiglyph is Brainfuck with a different spelling. There are eight
instructions: move the data pointer right or left, increment or decrement the
current cell, write it, read a byte into it, and the two loop brackets. Each is
written as an aligned pair of the glyphs `l`, `I` and `1` instead of as one
character. The repository has four programs:

- an interpreter for each language;
- `ig2bf`, a transpiler from Ichiglyph to Brainfuck;
- `bf2ig`, a transpiler from Brainfuck to Ichiglyph.

This project models these parts:

- **The instruction set** (`instructions.dfy`): the eight instructions plus
  NOP, which stands for every unit that is not an instruction. The file also
  defines `Strip`, which removes the NOPs, and `Pos`, which maps an index of a
  program to the matching index of its stripped form.
- **The decoders**:
  - `brainfuck.dfy`: Brainfuck decodes one byte at a time, and every other
    byte is a comment;
  - `ichiglyph.dfy`: Ichiglyph decodes one two-byte unit at a time. A trailing
    odd byte is not part of any unit.

  Each file also holds the encoder the opposite transpiler uses, and the
  interpreter's entry point.
- **The data memory** (`tape.dfy`): `data_t` and its `data_*` functions.
  The conceptual tape is infinite and initialised to 0. The buffer holds
  only a prefix of it and grows on demand to `dp + 1 + 32768` cells.
  - The functions `Bounded`, `Incremented`, `Decremented` and `Assigned` give
    the buffer each operation leaves.
  - The class `Tape` is the buffer updated in place: an `array` whose methods
    realloc, memset and write.
  - Whether realloc succeeds is an input (`reallocOk`).
- **The execution engine** (`engine.dfy`): one turn of the interpreters' main
  loop. Both interpreters share this loop; only the decoding differs.
  - `Step` is that turn as a function. The bracket scans are `ScanForward` and
    `ScanBackward`, which count open and closed brackets.
  - `Run` runs at most `fuel` instructions.
  - The methods `Turn` and `Execute` are the same loop over a `Tape` object.
  - A run that ends reports how:
    - `Finished`: ip ran past the last instruction;
    - `EndOfInput`: `,` read the end of the input;
    - `OutOfMemory`: the tape could not grow;
    - `UnmatchedBracket`: a bracket scan found no match;
    - `InvalidPointerMotion`: `<` with the data pointer at 0.
  - The source ends every one of these runs but InvalidPointerMotion the same
    way, by leaving the loop; at `<` with dp 0 it wraps dp and carries on (see
    Findings).
  - Bracket matching also has a reference definition, by nesting depth
    (`ForwardMatch` and `BackwardMatch`), which the scans are proved to
    compute.
- **The transpilers** (`ig2bf.dfy`, `bf2ig.dfy`): `Translate` gives each
  transpiler's output as a function, and `TranslateLoop` is its fetch, decode
  and encode loop.
- **NOP invariance** (`nops.dfy`): a program and the same program without its
  NOPs end alike:
  - same outcome, output, tape, data pointer and unread input;
  - the program needs at most `(fuel + 1) * (|prog| + 1)` turns.

  Every translation is its source without NOPs. So running an Ichiglyph
  program and running its Brainfuck translation end alike, and likewise the
  other way round (`Ig2Bf.RunsAgree`, `Bf2Ig.RunsAgree`).
- **Concrete runs** (`scenarios.dfy`) and **findings** (`findings.dfy`).

## Model

| member | source | states |
|---|---|---|
| Instructions.Strip | transpiler/ig2bf/ig2bf.c:203-204 | the program without NOPs is no longer than the program and holds no NOP |
| Instructions.StripAppend | transpiler/ig2bf/ig2bf.c:164-208 | removing NOPs works piece by piece: stripping a concatenation concatenates the strippings |
| Instructions.StripNoNop | transpiler/ig2bf/ig2bf.c:203-204 | removing NOPs, which the transpilers do by writing nothing for them, leaves a program with no NOP as it is, so stripping twice changes nothing more |
| Instructions.PosInstruction | interpreter/ichiglyph/ichiglyph.c:471-475 | an instruction at index i of a program sits at index Pos(prog, i) of the stripped program, and the next instruction follows it there |
| Brainfuck.Decode | interpreter/brainfuck/brainfuck.c:92-114 | a byte decodes to NOP exactly when it is none of the eight instruction characters; otherwise encoding the instruction gives that byte back |
| Brainfuck.Spell | transpiler/ig2bf/ig2bf.c:178-205 | ig2bf writes nothing for a NOP and one instruction character for every instruction |
| Brainfuck.SpellDecodes | transpiler/bf2ig/bf2ig.c:86-108 | decoding the character written for an instruction gives that instruction back |
| Brainfuck.DecodeProgram | interpreter/brainfuck/brainfuck.c:305-316 | a Brainfuck source of n bytes is a program of n instructions |
| Brainfuck.DecodeProgramAppend | interpreter/brainfuck/brainfuck.c:305-316 | decoding a concatenation concatenates the decoded programs |
| Brainfuck.Clean | interpreter/brainfuck/brainfuck.c:92-114 | removing the comments leaves only instruction characters, and no more bytes than before |
| Brainfuck.CleanDecodes | interpreter/brainfuck/brainfuck.c:92-114 | removing the comments of a source removes exactly the NOPs of its decoded program |
| Brainfuck.CleanKeeps | interpreter/brainfuck/brainfuck.c:92-114 | a source made of instruction characters only has no comments to remove |
| Brainfuck.Interpret | interpreter/brainfuck/brainfuck.c:305-437 | the Brainfuck interpreter's result is the engine's run of the byte-by-byte decoded source |
| Ichiglyph.Decode | interpreter/ichiglyph/ichiglyph.c:115-152 | a pair decodes to an instruction exactly when both bytes are glyphs and the pair is not `11`; encoding that instruction gives the pair back |
| Ichiglyph.Spell | transpiler/bf2ig/bf2ig.c:162-189 | bf2ig writes nothing for a NOP and a pair of glyphs for every instruction |
| Ichiglyph.SpellDecodes | interpreter/ichiglyph/ichiglyph.c:39-48 | decoding the pair written for an instruction gives that instruction back |
| Ichiglyph.SpellInjective | interpreter/ichiglyph/ichiglyph.c:39-48 | distinct instructions are written as distinct pairs |
| Ichiglyph.DecodeProgram | interpreter/ichiglyph/ichiglyph.c:322 | an Ichiglyph source of n bytes is a program of n / 2 units |
| Ichiglyph.DecodeProgramFirst | interpreter/ichiglyph/ichiglyph.c:342-355 | the first unit is made of the first two bytes, and the rest of the program is the decoding of the rest of the source |
| Ichiglyph.DecodeProgramAppend | interpreter/ichiglyph/ichiglyph.c:342-355 | decoding a text of whole units and what follows it concatenates the two decoded programs |
| Ichiglyph.DecodeIgnoresOddByte | interpreter/ichiglyph/ichiglyph.c:322 | a trailing odd byte is never decoded |
| Ichiglyph.Interpret | interpreter/ichiglyph/ichiglyph.c:342-476 | the Ichiglyph interpreter's result is the engine's run of the pair-by-pair decoded source |
| Tapes.Bounded | interpreter/brainfuck/brainfuck.c:158-171 | making cell dp addressable fails exactly when the buffer is too short and realloc fails; growing gives exactly dp + 1 + 32768 cells, old cells first and new cells zero; a buffer that already holds cell dp is left alone; every conceptual cell reads the same before and after |
| Tapes.Read | interpreter/brainfuck/brainfuck.c:229-235 | data_get as a value: a cell past the buffer reads 0 |
| Tapes.ReadPadded | interpreter/brainfuck/brainfuck.c:163-167 | padding the buffer with zero cells, as growing does, changes no cell's value |
| Tapes.Incremented | interpreter/brainfuck/brainfuck.c:185-193 | data_inc fails exactly when data_bound does; otherwise cell dp increases by one modulo 256 and every other cell reads the same |
| Tapes.Decremented | interpreter/brainfuck/brainfuck.c:207-215 | data_dec fails exactly when data_bound does; otherwise cell dp decreases by one modulo 256 and every other cell reads the same |
| Tapes.Assigned | interpreter/brainfuck/brainfuck.c:250-258 | data_set fails exactly when data_bound does; otherwise cell dp reads the new value and every other cell reads the same |
| Tapes.Tape.constructor | interpreter/brainfuck/brainfuck.c:123-127 | data_init gives an empty buffer |
| Tapes.Tape.Bound | interpreter/brainfuck/brainfuck.c:158-171 | the buffer afterwards is the one Bounded gives; on failure it is unchanged |
| Tapes.Tape.Get | interpreter/brainfuck/brainfuck.c:229-235 | data_get reads the cell, and 0 beyond the buffer, without growing it |
| Tapes.Tape.Inc | interpreter/brainfuck/brainfuck.c:185-193 | the buffer afterwards is the one Incremented gives; on failure it is unchanged |
| Tapes.Tape.Dec | interpreter/brainfuck/brainfuck.c:207-215 | the buffer afterwards is the one Decremented gives; on failure it is unchanged |
| Tapes.Tape.Set | interpreter/brainfuck/brainfuck.c:250-258 | the buffer afterwards is the one Assigned gives; on failure it is unchanged |
| Engine.Initial | interpreter/brainfuck/brainfuck.c:299-303 | a run starts with ip and dp at 0, all the input unread, nothing written and every cell 0 |
| Engine.ScanForward | interpreter/brainfuck/brainfuck.c:362-392 | a match the forward scan reports is a `]` at or after where it started |
| Engine.ScanBackward | interpreter/brainfuck/brainfuck.c:398-429 | a match the backward scan reports is a `[` before where it started |
| Engine.ScanForwardCorrect | interpreter/brainfuck/brainfuck.c:362-392 | the balance-counting scan from a `[` finds exactly its match by nesting depth: the first later index where the depth returns to zero; it finds nothing exactly when the `[` is never closed |
| Engine.ScanBackwardCorrect | interpreter/brainfuck/brainfuck.c:398-429 | the backward scan from a `]` finds exactly its match by nesting depth; it finds nothing exactly when the `]` is never opened |
| Engine.MatchIsBracket | interpreter/brainfuck/brainfuck.c:381-388 | the match of a `[` is a `]` and the match of a `]` is a `[` |
| Engine.Step | interpreter/brainfuck/brainfuck.c:305-437 | one turn keeps ip within the program; every early stop moves ip to the end and is not a clean finish |
| Engine.StepMove | interpreter/brainfuck/brainfuck.c:318-323 | `>` only moves dp right; `<` only moves it left, and faults at dp 0 |
| Engine.StepCell | interpreter/brainfuck/brainfuck.c:324-339 | `+` and `-` stop the run with OutOfMemory exactly when the tape must grow and cannot; otherwise they change cell dp by one modulo 256 and nothing else |
| Engine.StepOutput | interpreter/brainfuck/brainfuck.c:340-344 | `.` appends the current cell to the output and changes nothing else |
| Engine.StepInput | interpreter/brainfuck/brainfuck.c:345-358 | `,` at end of input stops the run with the tape untouched; otherwise it consumes one byte, stops with OutOfMemory exactly when the tape must grow and cannot, and else stores the byte in cell dp |
| Engine.StepNop | interpreter/brainfuck/brainfuck.c:432-436 | a NOP only moves ip on |
| Engine.StepJumpForward | interpreter/brainfuck/brainfuck.c:359-394 | `[` falls through on a nonzero cell; on a zero cell it resumes after its matching `]`, or stops with UnmatchedBracket when there is none |
| Engine.StepJumpBack | interpreter/brainfuck/brainfuck.c:395-431 | `]` falls through on a zero cell; on a nonzero cell it resumes after its matching `[`, or stops with UnmatchedBracket when there is none |
| Engine.Run | interpreter/brainfuck/brainfuck.c:305-437 | a run that ends leaves ip at the end of the program; one that runs out of fuel stands inside it |
| Engine.RunExtends | interpreter/brainfuck/brainfuck.c:340-358 | along a run, output is only ever appended and input only ever consumed from the front |
| Engine.RunMonotone | interpreter/brainfuck/brainfuck.c:305-437 | more fuel does not change a run that has already ended |
| Engine.MatchForward | interpreter/ichiglyph/ichiglyph.c:401-431 | the in-place scan loop reports the matching `]` of a `[`, or that none exists |
| Engine.MatchBackward | interpreter/ichiglyph/ichiglyph.c:437-468 | the in-place scan loop reports the matching `[` of a `]`, or that none exists |
| Engine.TurnCell | interpreter/ichiglyph/ichiglyph.c:363-397 | `+`, `-` and `,` on the Tape object do what Step does to the buffer, input and ip |
| Engine.TurnJump | interpreter/ichiglyph/ichiglyph.c:398-470 | `[` and `]` on the Tape object do what Step does |
| Engine.Turn | interpreter/ichiglyph/ichiglyph.c:343-475 | one turn of the loop on the Tape object does what Step does |
| Engine.Execute | interpreter/ichiglyph/ichiglyph.c:336-476 | the loop on a fresh Tape object gives exactly Run's result |
| NopErasure.StepErased | interpreter/ichiglyph/ichiglyph.c:343-475 | one turn of an instruction other than NOP, in a program and in the program without its NOPs, takes corresponding states to corresponding states |
| NopErasure.RunErased | interpreter/ichiglyph/ichiglyph.c:342-476 | a run of a program that ends, and the run of it without NOPs on the same fuel, agree up to ip |
| NopErasure.RunUnerased | interpreter/ichiglyph/ichiglyph.c:342-476 | a run without NOPs that ends is matched by a run of the program given Allowance(length, fuel) = (fuel + 1) * (length + 1) turns |
| NopErasure.NopsInvisible | interpreter/ichiglyph/ichiglyph.c:471-472 | a program and the program without its NOPs end with the same outcome, output, tape, data pointer and unread input, in both directions |
| Ig2Bf.Translate | transpiler/ig2bf/ig2bf.c:164-208 | ig2bf writes only instruction characters, at most one for every pair of the source |
| Ig2Bf.TranslateLoop | transpiler/ig2bf/ig2bf.c:164-208 | the fetch, decode and encode loop writes exactly the translation |
| Ig2Bf.TranslateAppend | transpiler/ig2bf/ig2bf.c:164-208 | a text of whole units and what follows it translate separately |
| Ig2Bf.TranslateDecodes | transpiler/ig2bf/ig2bf.c:178-205 | the output, read back as Brainfuck, is the Ichiglyph program without its NOPs, one character per instruction |
| Ig2Bf.TranslateIgnoresOddByte | transpiler/ig2bf/ig2bf.c:148 | a trailing odd byte writes nothing |
| Ig2Bf.RunsAgree | transpiler/ig2bf/ig2bf.c:164-208 | running an Ichiglyph program and running its Brainfuck translation end alike, in both directions |
| Bf2Ig.Translate | transpiler/bf2ig/bf2ig.c:151-192 | bf2ig writes only glyphs, in whole pairs, at most two bytes for every source byte |
| Bf2Ig.TranslateLoop | transpiler/bf2ig/bf2ig.c:151-192 | the fetch, decode and encode loop writes exactly the translation |
| Bf2Ig.TranslateAppend | transpiler/bf2ig/bf2ig.c:151-192 | a concatenation translates piece by piece |
| Bf2Ig.TranslateDecodes | transpiler/bf2ig/bf2ig.c:162-189 | the output, read back as Ichiglyph, is the Brainfuck program without its comments, two bytes per instruction |
| Bf2Ig.TranslateIgnoresComments | transpiler/bf2ig/bf2ig.c:187-188 | comments do not reach the output |
| Bf2Ig.RoundTrip | transpiler/bf2ig/bf2ig.c:162-189 | translating Brainfuck to Ichiglyph and back gives the source without its comments |
| Bf2Ig.RoundTripStable | transpiler/ig2bf/ig2bf.c:178-205 | a second round trip changes nothing more |
| Bf2Ig.RunsAgree | transpiler/bf2ig/bf2ig.c:151-192 | running a Brainfuck program and running its Ichiglyph translation end alike, in both directions |
| Scenarios.CountToThree | interpreter/brainfuck/brainfuck.c:324-344 | `+++.` writes the byte 3 and finishes |
| Scenarios.StopAtEndOfInput | interpreter/brainfuck/brainfuck.c:345-350 | `.,.` with no input writes one byte and stops at the `,` |
| Scenarios.StopAtUnmatchedOpen | interpreter/brainfuck/brainfuck.c:362-374 | a lone `[` on a zero cell stops with UnmatchedBracket |
| Scenarios.SkipZeroLoop | interpreter/brainfuck/brainfuck.c:359-394 | `[+].` on a zero cell skips the loop body |
| Scenarios.CountdownFinishes | interpreter/brainfuck/brainfuck.c:395-431 | `+++[-].` finishes in 11 instructions and writes 0 |
| Scenarios.CountdownNeedsEleven | interpreter/brainfuck/brainfuck.c:395-431 | ten instructions are not enough for it |
| Scenarios.GrownTapeReadsZero | interpreter/brainfuck/brainfuck.c:163-167 | cells never written read 0, also after the buffer grew past them |
| Findings.ForwardReadsAsWritten | interpreter/brainfuck/brainfuck.c:362-380 | the forward scan as written reads only indexes after its start and up to the program size |
| Findings.ReadsPastEndIffUnmatched | interpreter/brainfuck/brainfuck.c:362-380 | as written, the scan reads index program_size exactly when its `[` has no match |
| Findings.MoveLeftAsWritten | interpreter/brainfuck/brainfuck.c:321-323 | `<` as written moves dp left, except at 0, where it wraps |
| Findings.BoundSizeAsWritten | interpreter/brainfuck/brainfuck.c:158-171 | as written, data_bound leaves cell dp addressable exactly when the buffer already held it or dp + 1 + 32768 does not wrap: a wrapped request leaves dp outside the buffer |
| Findings.WrappedPointerEscapesBuffer | interpreter/brainfuck/brainfuck.c:321-331 | on `<+` the wrapped pointer lies beyond the buffer data_bound leaves |
| Findings.LeftThenIncrementFaults | interpreter/brainfuck/brainfuck.c:321-331 | the corrected engine stops `<+` at the `<` with InvalidPointerMotion |

## Left out

- Command-line handling, opening, stat and mmap of the source file, and the exit codes: these are I/O. The model starts from the bytes of the source and gives the outcome as a value. An empty Brainfuck source, or an Ichiglyph source shorter than 2 bytes, makes the mmap of length 0 fail, so the programs report "Unable to mmap" and exit with code 4 before the loop (brainfuck.c:291-297, ichiglyph.c:327-334, and likewise in both transpilers). The model gives Done(Finished, …) with empty output there; stdout is the same.
- The munmap in ichiglyph.c and ig2bf.c passes the number of units rather than the number of bytes. This is resource release and is not modelled.
- The interpreters' `fgetc(stdin)`, `fputc(val, stdout)` and `fflush(stdout)`, and the transpilers' `fputs(…, stdout)`: the input is a sequence of bytes given in advance, and the output is the sequence of bytes written.
- The `fprintf(stderr, "%s: Out of memory\n", …)` diagnostics of `+`, `-` and `,`: the model reports them only as the OutOfMemory outcome.
- data_done: freeing the buffer is not modelled.
- When realloc fails, the source loses the old buffer (it is set to NULL and leaked). The model keeps the old contents, because the run stops there and the buffer is never read again.
- Tapes.Bounded: realloc success is a parameter. For a run it is an oracle `alloc` asked about the requested size; how real allocation behaves is not modelled.
- Engine.Run: the source runs without bound. The model runs at most `fuel` instructions and reports OutOfFuel otherwise, so non-termination shows as running out of fuel for every fuel.
- Engine.Step: `<` at dp 0 ends the run with InvalidPointerMotion. The source wraps dp instead (see Findings).
- Engine.ScanForward: the forward scan stops at the end of the program and reports UnmatchedBracket. The source reads one unit past the end first (see Findings).
- An early stop leaves ip at the program size in the model. The source then applies its final `ip++`, which only ends the loop.
- Each interpreter decodes a unit when it fetches it, and the scans decode the units they pass. The model decodes the whole source once. The result is the same because decoding depends on the unit alone.
- The transpilers' two decoder copies, and the two identical data_* copies, are each modelled once.
- dp is unbounded. The 64-bit width of size_t appears only in Findings.

## Findings

| source | as written | input that shows it | evidently intended | confidence | as-written member | corrected member |
|---|---|---|---|---|---|---|
| interpreter/brainfuck/brainfuck.c:362-380 | the forward scan checks for the end before `ip++` and then reads `program[ip]`, so an unmatched `[` makes it read one unit past the program (ichiglyph.c:401-417 likewise) | the program `[` on a zero cell | stop at the end without reading and end the run | high, not executed | Findings.ReadsPastEndIffUnmatched | Engine.ScanForwardCorrect |
| interpreter/brainfuck/brainfuck.c:321-331 | `<` at dp 0 wraps dp to SIZE_MAX; the next `+` calls data_bound, whose size dp + 1 + 32768 wraps to 32768, and then writes data[SIZE_MAX], outside the buffer (ichiglyph.c:360-370 likewise) | the program `<+` | a pointer move left of cell 0 is an error that ends the run | high, not executed | Findings.WrappedPointerEscapesBuffer | Engine.StepMove |
