# PRT-7 line-protocol decoder, modelled in Dafny

The decoder reads text lines from a serial link. A line `L,c` is a load
frame. Its payload character `c` goes through a cipher rotor, and the
result is appended to the message being assembled. A line `M,±digits` is a
map frame, which turns the rotor. The rotor (`RotorDeMapeo`) is a circular
doubly-linked ring of the 27 symbols `A`..`Z` and space, and its `cabeza`
marks the current zero position. Mapping a symbol takes its index in the
unrotated alphabet and walks that many steps from `cabeza`. The message
(`ListaDeCarga`) is an append-only doubly-linked list.

The model has six modules:

- `Wrappers`: `Option`.
- `Rotor`: the ring.
  - The class `RotorDeMapeo` holds the node symbols in `siguiente` order as `ring` and the head as a position `cabeza`. `Siguiente` and `Previo` are the ring links.
  - `Rotar` and `GetMapeo` step one link per loop iteration, as the pointer walks do. They are proved against `Walk`, a unit-step reference, and against `Mapeo`, the mapping function.
- `Carga`: the list.
  - The class `ListaDeCarga` keeps nodes in an index arena: `datos`, `siguiente`, `previo`, `head` and `tail`.
  - `Valid()` ties the links together. `InsertarAlFinal` relinks exactly as the source does.
- `Tramas`: the two frames as the closed datatype `Trama = Load(data) | Map(rotationAmount)`, and their `procesar` methods.
  - These are proved against `Apply`, a pure transition on a `Session` (rotor position, message so far).
- `Protocolo`: `manual_strlen`, the `parseLine` grammar and `itoa_custom`.
  - C strings are `string`s without NUL, read through `CharAt`, which yields `'\0'` at the end. A null `char*` is `None`.
  - `ParseLine` and `ItoaCustom` are proved against the functions `Parse` and `Itoa`. `ItoaCustom` fills an array and reverses it in place.
- `Decodificador`: one pass of `main`'s loop (`ProcesarLinea`, specified by `Step`) and a whole session over a finite sequence of lines (`Decodificar`, specified by the fold `Run`).

`parseLine` turns a `'\0'` load payload into a space (main.cpp:98-101).
However, the length check at main.cpp:79 rejects every line shorter than
three characters, so that branch cannot be reached and `"L,"` is rejected.
`Protocolo.ParseExamplesLoadAndReject` states this.

## Model

| member | source | states |
|---|---|---|
| Rotor.RotorDeMapeo.constructor | RotorDeMapeo.cpp:9-11 | a new rotor holds exactly A..Z then space in ring order, with the head on 'A' |
| Rotor.RotorDeMapeo.InicializarAlfabeto | RotorDeMapeo.cpp:28-60 | on an empty ring, builds the 27-symbol ring in canonical order with the head on the first symbol; on an initialised ring, changes nothing |
| Rotor.AlphabetAt | RotorDeMapeo.cpp:37-59 | the symbol at ring position k, the k-th capital letter below 26 and the space at 26, is character k of "ABCDEFGHIJKLMNOPQRSTUVWXYZ " |
| Rotor.RingSpellsAlphabet | RotorDeMapeo.h:25-35 | a ring whose 27 nodes hold the symbols in construction order is exactly "A".."Z" followed by a space |
| Rotor.Siguiente | RotorDeMapeo.h:13-16 | the forward link of position p leads to (p + 1) mod 27 |
| Rotor.Walk | RotorDeMapeo.cpp:68-76 | the node reached by n unit steps of `rotar`'s loops; one step forward follows the `siguiente` link and one step back the `previo` link |
| Rotor.Previo | RotorDeMapeo.h:13-16 | the backward link is the inverse of the forward link: it leads to (p - 1) mod 27 |
| Rotor.RotorDeMapeo.Rotar | RotorDeMapeo.cpp:63-77 | n forward steps for n > 0 and abs(n) backward steps otherwise, so the head moves to (head + n) mod 27; the ring's symbols and order are untouched |
| Rotor.WalkIsModular | RotorDeMapeo.h:56-64 | walking n unit steps along the links equals moving by n mod 27, in both directions |
| Rotor.WalkAdditive | RotorDeMapeo.cpp:68-76 | rotating by a and then by b is rotating by a + b |
| Rotor.WalkInverse | RotorDeMapeo.cpp:68-76 | rotating by n and then by -n restores the head |
| Rotor.AbsoluteIndex | RotorDeMapeo.cpp:80-91 | an index exists exactly for letters of either case and space; the symbol at that index of the unrotated ring is the upper-cased input |
| Rotor.ToUpper | RotorDeMapeo.cpp:82 | `toupper` turns each of 'a'..'z' into the same letter in capitals and leaves every other character alone |
| Rotor.AbsoluteIndexOfSymbol | RotorDeMapeo.h:66-72 | each alphabet symbol's absolute index is its own ring position (A=0 .. space=26) |
| Rotor.RotorDeMapeo.GetMapeo | RotorDeMapeo.cpp:79-98 | the result is the symbol abs-index steps past the head, and the input itself when it is not a letter or space; the rotor is not modified |
| Rotor.Mapeo | RotorDeMapeo.h:66-75 | characters outside the alphabet come back unchanged at every head position; alphabet inputs of either case map to a capital letter or a space |
| Rotor.MapeoCaseInsensitive | RotorDeMapeo.cpp:82-85 | a lower-case letter maps like its upper-case form |
| Rotor.MapeoOfSymbol | RotorDeMapeo.cpp:93-98 | an alphabet symbol maps to the symbol its own index ahead of the head, wrapping around the ring |
| Rotor.MapeoAtHome | RotorDeMapeo.cpp:9-11 | with the head at 'A', as after construction, mapping is the identity on the alphabet |
| Rotor.SymbolDistinct | RotorDeMapeo.cpp:37-59 | the 27 ring symbols are pairwise distinct |
| Rotor.Unmapeo | RotorDeMapeo.cpp:93-98 | the inverse mapping for a fixed head sends alphabet symbols to alphabet symbols |
| Rotor.UnmapeoMapeo | RotorDeMapeo.cpp:93-98 | undoing a mapping recovers every alphabet input |
| Rotor.MapeoUnmapeo | RotorDeMapeo.cpp:93-98 | every alphabet symbol is the mapping of its inverse image |
| Rotor.MapeoBijective | RotorDeMapeo.cpp:93-98 | for a fixed head, mapping is injective on the alphabet and reaches every alphabet symbol |
| Carga.ListaDeCarga.constructor | ListaDeCarga.cpp:9 | a new list is empty, with null head and tail |
| Carga.ListaDeCarga.InsertarAlFinal | ListaDeCarga.cpp:22-32 | the contents become old contents plus the new character, the new node is the tail, its previous link is the old tail, the old tail's next link is the new node, and the list invariant (head null iff tail null, links consistent) is kept |
| Carga.ListaDeCarga.ImprimirMensaje | ListaDeCarga.cpp:34-40 | following the next links from the head yields exactly the inserted characters in insertion order, and the list is not modified |
| Tramas.Apply | TramaLoad.cpp:12-21 | a load frame appends the payload as mapped at the current head; a map frame moves the head by the rotation amount mod 27 |
| Tramas.LoadAppendsOne | TramaLoad.cpp:19-20 | a load frame grows the message by exactly one character, keeps every earlier character and leaves the rotor where it was |
| Tramas.MapZeroIsIdentity | TramaMap.cpp:12-19 | a map frame with amount 0 changes nothing |
| Tramas.MapsCompose | TramaMap.cpp:12-19 | two map frames act as one whose amount is their sum |
| Tramas.MapUndoes | TramaMap.cpp:12-19 | a map frame by -n undoes a map frame by n |
| Tramas.ProcesarLoad | TramaLoad.cpp:12-21 | with both objects present, the list gains the mapped payload and the rotor is untouched; with either missing, nothing changes |
| Tramas.ProcesarMap | TramaMap.cpp:12-19 | with a rotor present, it is rotated by exactly the amount and the list is untouched; with no rotor, nothing changes |
| Tramas.Procesar | TramaBase.h:26-36 | the virtual `procesar` dispatched on the frame kind, to the bodies at TramaLoad.cpp:12-21 and TramaMap.cpp:12-19: processing either frame moves the rotor and list as Apply says |
| Protocolo.ManualStrlen | main.cpp:23-29 | the length of the string up to its terminator, and 0 for a null pointer |
| Protocolo.DigitRun | main.cpp:116-119 | the digit loop consumes a prefix made only of digits and stops at the first non-digit or at the end |
| Protocolo.Parse | main.cpp:78-127 | the frame grammar: null, short, comma-less or unknown-tag lines give no frame with rotation 0 and an empty buffer; "L,c" gives Load(c); "M," gives Map of the signed digit run |
| Protocolo.ParseLine | main.cpp:78-127 | the pointer walk with its sign handling and digit accumulation yields exactly the frame, data buffer and rotation value Parse defines |
| Protocolo.ParseRejection | main.cpp:79-92 | a line (a C string, so with no NUL inside) yields no frame exactly when it is null, shorter than 3, lacks the comma at index 1 or has a tag other than L or M; a rejected line leaves rotation 0 and an empty buffer |
| Protocolo.ParseLoad | main.cpp:96-105 | a C string "L,c" (c not NUL) followed by anything decodes to Load(c), with c as the data buffer and rotation 0 |
| Protocolo.ParseMapLine | main.cpp:94-122 | for a C string, after "M," the whole rest of the line is the payload, whose signed value becomes both the frame amount and the rotation value |
| Protocolo.SignedValueOfRun | main.cpp:107-119 | a C-string payload of an optional sign, a digit run and a non-digit tail denotes the sign applied to the run's decimal value, 0 for an empty run |
| Protocolo.ParseMap | main.cpp:106-122 | a C string "M," then an optional sign, a digit run and a non-digit tail decodes to Map of the signed decimal value of the run, which is also the rotation value |
| Protocolo.ReadRotation | main.cpp:106-120 | the sign test and the digit-accumulation loop compute the signed value of the payload after "M," |
| Protocolo.SignedValue | main.cpp:107-120 | the amount the M branch computes is negative only after a leading '-', at most 0 after one, and 0 when the payload starts with neither a sign nor a digit |
| Protocolo.DigitIsInside | main.cpp:116 | a digit read by the loop lies before the terminator |
| Protocolo.DecimalValueStep | main.cpp:116-118 | each loop step multiplies the accumulated value by ten and adds the new digit |
| Protocolo.RotationOfRun | main.cpp:107-120 | when the loop stops, the sign times the accumulated run is the payload's signed value |
| Protocolo.MagnitudeOfDigits | main.cpp:116-119 | a payload made only of digits is read whole |
| Protocolo.MagnitudeOfRun | main.cpp:115-118 | a digit run from a given start that ends at the end of the payload or before a non-digit is what the loop accumulates: its decimal value |
| Protocolo.DigitRunExact | main.cpp:116-119 | a digit run followed by a non-digit is consumed exactly |
| Protocolo.ParseExamplesLoadAndReject | main.cpp:79-105 | "L,X" and "L, " load their third character; a null line, "", "L", "L,", "M,", "Z,9" and "L;A" are rejected |
| Protocolo.ParseExamplesSignedMap | main.cpp:106-122 | "M,-5" is Map(-5) with rotation -5, "M,+7x" is Map(7) (the tail after the digits is ignored), and "M,-" is Map(0) |
| Protocolo.ParseExampleUnsignedMap | main.cpp:106-122 | "M,12" is Map(12) with rotation 12, digits read most significant first |
| Protocolo.DigitChar | main.cpp:53 | the character written for a digit value is a decimal digit whose value is that digit |
| Protocolo.ReversedDigits | main.cpp:52-55 | the digit loop writes nothing for 0 and at least one character for every other value (`DecimalDigits` states that they are digits spelling the value) |
| Protocolo.Itoa | main.cpp:34-73 | the text is never empty; a negative value gets a '-' in front of the digits of its absolute value, so one more character than the digit loop wrote; a positive value is exactly as long as the digit loop's output (`ItoaShape` states the full shape) |
| Protocolo.ItoaIsCString | main.cpp:52-61 | the text written before the terminator holds no NUL, so it is a C string |
| Protocolo.Reverse | main.cpp:63-71 | reversal keeps the length |
| Protocolo.ReverseAt | main.cpp:63-71 | element k of the reversal is element n-1-k of the input |
| Protocolo.ReverseReverse | main.cpp:63-71 | reversing twice gives back the input |
| Protocolo.ReverseAppend | main.cpp:63-71 | the reversal of a concatenation is the concatenation of the reversals in swapped order |
| Protocolo.DecimalDigits | main.cpp:52-55 | the digit loop emits a nonempty digit string with no leading zero whose decimal value is the input |
| Protocolo.ItoaShape | main.cpp:34-73 | the text starts with '-' exactly when the value is negative, the rest are digits, it has a leading '0' only for 0, and the digits spell the absolute value |
| Protocolo.ParseItoa | main.cpp:34-73 | feeding the text back through the map-frame grammar yields Map of the original value |
| Protocolo.ItoaReversed | main.cpp:52-59 | before the reversal, the buffer holds the digits least significant first, then '-' for negatives |
| Protocolo.ItoaCustom | main.cpp:34-73 | a null buffer is returned untouched; otherwise the buffer holds the decimal text and then NUL, every cell after the terminator keeps its old value, and that buffer is returned |
| Protocolo.WriteDigitsBackwards | main.cpp:51-55 | the loop writes the digits least significant first and leaves the rest of the buffer alone |
| Protocolo.ReverseInPlace | main.cpp:63-71 | the swap loop leaves the first n cells reversed and the rest unchanged |
| Protocolo.TerminateAndReverse | main.cpp:61-71 | the NUL goes after the i characters written so far, those i characters end up reversed, and the cells after the NUL keep their old value |
| Protocolo.DigitCountAtMost | main.cpp:52-55 | a value below 10^k has at most k digits |
| Protocolo.DigitCountAbove | main.cpp:52-55 | a value of at least 10^k has more than k digits |
| Protocolo.ItoaTimesTen | main.cpp:52-71 | multiplying a positive value by ten appends a '0' to its text |
| Protocolo.ItoaPow10 | main.cpp:52-71 | the text of 10^k is a '1' followed by k zeros |
| Protocolo.ItoaOfBillion | main.cpp:34-73 | the text of 10^9 is "1000000000" |
| Protocolo.DisplayBufferOverflow | main.cpp:221-222 | the text of 10^9 is "1000000000", the line "M,1000000000" is accepted with rotation 10^9, and that text plus NUL needs 11 cells, more than the 10-cell display buffer |
| Protocolo.ItoaFitsRotationLabel | main.cpp:221-222 | the text of every 32-bit int, plus NUL, fits in 12 cells |
| Protocolo.RotationLabel | main.cpp:221-222 | the rotation display renders the amount into a 12-cell buffer; the text re-parses to the same map frame |
| Decodificador.Step | main.cpp:178-237 | one loop pass: a missing line or one not starting with L or M is skipped, a line that fails to parse changes nothing, and a parsed frame is applied |
| Decodificador.IsFrameLine | main.cpp:186-191 | a line passes the first-character filter exactly when it is nonempty and starts with L or M |
| Decodificador.PrefilterKeepsFrames | main.cpp:186-192 | every line the first-character filter drops would be rejected by the parser anyway |
| Decodificador.StepIsParseThenApply | main.cpp:194-203 | handling a line is parsing it and applying the resulting frame, if any |
| Decodificador.Run | main.cpp:178-237 | frames are applied in arrival order |
| Decodificador.RunAppend | main.cpp:178-237 | handling two batches is handling the first and then the second |
| Decodificador.RunOnlyAppends | main.cpp:178-237 | the message only grows, with earlier characters kept in place |
| Decodificador.RunLength | main.cpp:198-203 | the message grows by exactly one character per load line |
| Decodificador.UnknownTagIsIgnored | main.cpp:124-126 | every line whose first character is neither L nor M, the empty line included, is rejected by the parser and leaves rotor and message unchanged |
| Decodificador.UnknownTagExample | main.cpp:186-192 | the line "Q,1" leaves rotor and message unchanged |
| Decodificador.StepLoad | main.cpp:194-203 | a load line "L,c" with c not NUL appends c mapped at the current rotor position |
| Decodificador.StepMapOne | main.cpp:194-203 | the line "M,1" advances the rotor by one position |
| Decodificador.EndToEnd | main.cpp:178-237 | from start-up, lines L,A, M,1, L,A and L,Z leave the message "AB " |
| Decodificador.OrderMatters | main.cpp:178-237 | frames do not commute: L,A then M,1 differs from M,1 then L,A |
| Decodificador.ProcesarLinea | main.cpp:179-236 | one pass over the real rotor and list objects changes them exactly as Step says |
| Decodificador.Decodificar | main.cpp:166-243 | with a fresh list and rotor, handling every line in order and then reading the list gives the message Run computes |

## Left out

- SerialPort.cpp and SerialPort.h are not part of this model. They are OS transport: port configuration, byte reads from hardware and `readLine`. Lines arrive as a sequence of `Option<string>`, where `None` means no line was available.
- The console side of `main`:
  - the port prompt and the progress and error messages;
  - the `dynamic_cast` display branch, which only prints, except for the rotation-label buffer covered under Findings;
  - the `running` flag, which is never cleared, so the loop never ends. The model folds over a finite sequence of lines instead.
- Memory management (`new`, `delete`, `malloc`, `free`) and the destructors. Nodes are positions in sequences rather than heap cells, so pointer aliasing between nodes is not modelled.
- The abstract base class and virtual dispatch in TramaBase.h, TramaLoad.h and TramaMap.h. They are replaced by the closed datatype `Trama` and a `match` in `Tramas.Procesar`. The frame constructors only store their argument, which is the datatype constructor.
- Locale-dependent and non-ASCII behaviour of `toupper`. `Rotor.ToUpper` folds only `a`..`z`.
- Protocolo.ParseLine: the digit accumulation uses mathematical integers, so the int overflow of a C `int` for long digit runs is not modelled.
- Protocolo.ItoaCustom: mathematical integers, so negating `INT_MIN` is not modelled. The caller must supply a buffer large enough for the text, which the source leaves to its caller.
- Rotor.RotorDeMapeo.Rotar: the null-head guard cannot be reached once the constructor has run, so the model's precondition is a built ring.
- Some loops are separate methods here. The digit loop of `itoa_custom` is `WriteDigitsBackwards`. Its terminator write and reversal loop are `TerminateAndReverse`, which calls `ReverseInPlace`. The sign test and digit loop of `parseLine`'s "M" branch are `ReadRotation`. The pointer `token` becomes an index into the line.

## Findings

| source | as written | input that shows it | evidently intended | confidence | as-written member | corrected member |
|---|---|---|---|---|---|---|
| main.cpp:221-222 | the map-frame display renders the rotation amount with `itoa_custom` into `char buffer[10]` | the line `M,1000000000`: the text `1000000000` plus NUL needs 11 cells (also any amount of -100000000 or below) | a buffer large enough for any `int`, 12 cells | not executed | Protocolo.DisplayBufferOverflow | Protocolo.RotationLabel |
