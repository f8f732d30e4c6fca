# A verified model of the packet sniffer

The sniffer captures frames through a ring shared with the kernel, hands them over a bounded queue
to a second thread, and decodes and prints them. A *capture filter* is compiled to classic BPF and
runs in the kernel on raw bytes; a *display filter* is evaluated on decoded fields. This project
models those parts in Dafny and proves what they are for:

- **The compiler is correct.** Text to tokens to tree to patched bytecode to verdict: for every text
  that compiles and every frame, the bytecode accepts exactly when the filter is true in a
  three-valued, short-circuit semantics in which a load beyond the frame rejects the packet even
  under `not` (`CapFilter.CompiledTextCorrect`). Exactly which texts compile is stated
  (`CapFilter.CompilesExactlyWhen`), and so is the backpatching discipline
  (`PatchDiscipline.PatchedExactlyOnce`).
- **The parsers accept exactly their grammar**, and printing any filter with the fewest parentheses
  and reading it back gives the same filter, down to the characters (`Grammar`, `CapFilter`,
  `DispFilter`). IPv4, MAC and IPv6 literals round-trip, including every compressed IPv6 form, in
  either letter case.
- **Every word means what it says.** A text lexes to a token list if and only if it is those tokens'
  spellings standing apart (`Lexing.LexesExactly`); each word and sign has its token, and each
  primitive written with them its filter, with or without blanks (`CapPhrases`, `DispPhrases`), also
  under `and`, `or`, `not` and parentheses (`Phrases`).
- **The two filters agree exactly when the frame is in sync**: an if-and-only-if over all frames,
  with the condition stated on the frame's bytes (`Agreement.AgreesExactlyWhenInSync`).
- **Decoding inverts encoding**: any frame written header by header is seen by the display filter
  as it was meant, by every filter text (`WireFormat.FilterTextMeansEnds`), and so it is by the
  capture filter's bytecode (`SentCapture.TextDecidesSent`); each header parser accepts exactly the
  headers one can write (`Decode`).
- **The ring** delivers every packet of every retired block once and in order, with kernel and
  signal handler acting between any two accesses of the receiver; it reads only blocks it owns and
  gives a block back only when its packets are copied (`RingProtocol.RingDelivers`,
  `RingProtocol.CopiedBeforeReleased`).
- **The queue** loses no wakeup, never deadlocks if and only if it has room for one frame, conserves
  frames, and finishes within a stated number of steps (`QueueProtocol`).
- **End to end**: what is printed is a prefix of what the kernel retired, and the program's own
  steps print all of it within a stated bound (`Pipeline.EndToEnd`, `PipelineDrain.PrintsEverything`).
  Every printed frame satisfies the text of the capture filter, except for packets that were in the
  ring before the filter was attached; the exact condition is `FilteredCapture.AllMatchExactlyWhen`.
  A requested stop ends the program within a stated number of steps (`Pipeline.ShutdownCompletes`).
- **The Internet checksum** (RFC 1071) is characterised modulo 65535 with its exact no-wrap bound.

## How the model is laid out

| files | part |
|---|---|
| `Words`, `Text`, `Scanning`, `Lexing`, `Phrases` | machine words, bits, splitting and joining, digits, scanning a word, what both lexers share, and what texts put together mean |
| `Bpf` | the interpreter of src/tests/bpf_interp.c |
| `CapAst`, `Codegen`, `CompilerCorrectness`, `PatchDiscipline`, `Generator` | meaning, code generation and its proofs; `Generator` is the imperative code generator |
| `Grammar`, `CapLanguage`, `CapParser`, `CapLexer`, `CapFilter`, `CapPhrases` | the capture filter from text to program |
| `DispLanguage`, `DispParser`, `DispLexer`, `DispFilter`, `DispPhrases` | the display filter |
| `Literals`, `Ipv6Literal`, `Ipv6Forms`, `LetterCase` | address literals and printers |
| `Checksum`, `Headers`, `Decode`, `PacketPrinter`, `WireFormat`, `SentCapture`, `Agreement` | headers, fields, and the two filters side by side |
| `Ring`, `RingProtocol`, `RawSocket`, `Queue`, `QueueProtocol`, `Pipeline`, `PipelineDrain`, `FilteredCapture` | the capture as a concurrent protocol |

`Grammar` is generic over the primitives, because both filters share the grammar of `and`, `or`,
`not` and parentheses; `CapLanguage` and `DispLanguage` prove that their primitives meet its laws.
Code that updates state is modelled by classes and loops proved against functions on values; the
theorems are about those functions. Threads, kernel and signal handler are modelled by action lists:
a run is any list of actions each of which is legal where it happens, so a theorem about all lists
is a theorem about all interleavings of those actions. An action of the receiver is one access to
shared memory; an action of a queue thread is what it does between two points where the other can
run. Steps are sequentially consistent.

Where code and documentation differ, the code is modelled:

- Both lexers check the limit of 256 tokens only in front of a token and then store the end marker
  without a check. Exactly 256 tokens therefore end in the outcome `Overrun`; the lexers stay inside
  their array if and only if there are not exactly 256 (`Lexing.StaysInsideUnless256`, with
  `CapLexer.ParensOverrun` as an instance).
- src/c/dispfilter.h:68-70 promises that every comparison on an absent layer is false. The code
  makes `!=` true there: the promise holds if and only if the comparison is `==`
  (`DispFilter.AbsentLayerIsFalseOnlyForEqual`, with `DispFilter.NotEqualOnAbsentLayer`).
- `PacketQueue` can be made with a maximum of zero; then the first frame puts both threads to sleep
  for good (`QueueProtocol.NoRoomDeadlocks`).
- A received frame is lost if its record in the pcap file fails, since run_impl leaves its loop
  before the callback; nothing else loses a frame (`QueueProtocol.NothingLostExactlyWhen`).
- run_impl opens the socket, whose ring fills from then on (src/c/raw_socket.c:195-196), before it
  attaches the filter (src/c/capture_backend_linux.c:126-142). Packets stored in between pass no
  filter and are printed all the same (`FilteredCapture.GapPrintsUnmatched`).
- The usage text in src/main.cpp:19 shows `tcp port 443`; juxtaposition is not in the grammar of
  src/c/capfilter.h:26-36, and the model follows the grammar.

C leaves the evaluation order of the two arguments of `mk_or(mk_host(..), mk_host(..))` open; the
model takes them from left to right, which only affects where in the arena the leaves are placed.

## Model

| member | source | states |
|---|---|---|
| `CapFilter.CompiledTextCorrect` | src/c/capfilter.c:735-800 | for every text that compiles and every frame, the interpreter returns 65535 when the meaning of the text's filter is true, and 0 when it is false or a load is out of bounds |
| `CapFilter.CompilesExactlyWhen` | src/c/capfilter.c:735-787 | a text compiles if and only if it lexes to at most 255 tokens, parses, needs at most 256 arena nodes, and all its jumps fit in eight bits |
| `CapFilter.EmptyTextAccepts` | src/c/capfilter.c:735-752 | for a text that is absent or empty, the result is no error and its bytecode returns 65535 on every frame |
| `CapFilter.Compile` | src/c/capfilter.c:735-800 | lexing, parsing into the arena and generating code imperatively gives the specified result on every text, errors included; it accepts everything if and only if the text is absent or empty, and then every frame gets 65535 |
| `CapFilter.ResultsExactlyWhen` | src/c/capfilter.c:735-800 | which texts accept everything, overrun the token array, or are rejected: each an if-and-only-if on the text, its tokens and its filter |
| `CapFilter.ParseTokens` | src/c/capfilter.c:754-769 | the arena parser returns the lowered tree exactly when the tokens parse and the tree fits the arena |
| `CapFilter.TextDenotesFilter` | src/c/capfilter.c:140-261 | every valid filter within the token limit, written out, is read back as itself |
| `CapFilter.TextIsGrammatical` | src/c/capfilter.h:26-33 | a text denotes a filter if and only if its tokens are a derivation of the documented grammar |
| `Bpf.LoadU` | src/tests/bpf_interp.c:5-15 | a load gives the big-endian field, or fails exactly when it reaches beyond the frame |
| `Bpf.BpfInterpRun` | src/tests/bpf_interp.c:17-94 | the interpreter's loop computes the small-step semantics, step guard included |
| `Bpf.StepByOpcode` | src/tests/bpf_interp.c:31-91 | what each instruction class does, by the numbers in its opcode: return, jump if equal, and, and rejection of everything else |
| `Bpf.RunExactly` | src/tests/bpf_interp.c:17-29 | an empty program returns 65535; any other returns its verdict if it needs at most 10000 steps, and 0 if it needs more |
| `Bpf.GuardUnreachable` | src/tests/bpf_interp.c:26-29 | from any machine state whose remaining program fits the step limit, the guard never fires and at most one step per remaining instruction is taken |
| `CompilerCorrectness.ProgramIsDirect` | src/c/capfilter.c:771-788 | a tree compiles if and only if every jump fits, and the backpatched program then equals the one written with known targets |
| `CompilerCorrectness.DirectSimulates` | src/c/capfilter.c:640-728 | wherever a tree's code sits in a program, running it leads to the true target, the false target or a rejected packet according to its three-valued meaning |
| `CompilerCorrectness.ProgramEvaluates` | src/c/capfilter.c:771-788 | the verdict does not depend on the initial A and X |
| `CompilerCorrectness.CompiledFilterCorrect` | src/tests/bpf_interp.c:17-94 | for every tree within the arena, the guarded interpreter gives the meaning's verdict in at most 386 steps |
| `CompilerCorrectness.CapacityBounds` | src/c/capfilter.c:8-10 | 256 nodes force at most 128 leaves, 386 instructions and 128 entries per patch list |
| `CompilerCorrectness.ShortProgramsFit` | src/c/capfilter.c:589-606 | a program of at most 258 instructions never has a jump out of range |
| `CompilerCorrectness.OneInstructionMoreMisses` | src/c/capfilter.c:589-606 | the bound is exact: a tree within the node arena that would need 259 instructions has a jump out of range |
| `CompilerCorrectness.LeafRuns` | src/c/capfilter.c:683-728 | the loads of a leaf put into A the value that its comparison needs, or reject the packet, as the leaf's meaning says |
| `Codegen.BackpatchIsDirect` | src/c/capfilter.c:640-681 | for every tree and any two targets, resolving both patch lists in either order gives the code with those targets, and fails exactly when a jump does not fit |
| `Codegen.MaskedCompare` | src/c/capfilter.c:633-638 | two addresses are equal under the prefix mask if and only if their leading bits agree |
| `Codegen.LenBound` | src/c/capfilter.c:608-626 | the code of a tree is two or three instructions per leaf |
| `PatchDiscipline.PatchedExactlyOnce` | src/c/capfilter.c:558-606 | when a program is compiled, the jt and the jf of every JEQ are each written exactly once, and nothing else anywhere is written |
| `PatchDiscipline.ProgramWellFormed` | src/c/capfilter.c:589-606 | every jump goes strictly forward, inside the program, without truncation |
| `PatchDiscipline.PathsEnd` | src/tests/bpf_interp.c:17-94 | every path through a well-formed program ends inside it, at a return with that return's value or at a load that failed |
| `PatchDiscipline.ProgramPathsEnd` | src/tests/bpf_interp.c:17-94 | in a compiled program, from any A and X, the verdict is that of a return, or the path ends at a load and the packet is rejected |
| `Generator.CfGen.Push` | src/c/capfilter.c:576-587 | appends one instruction, or sets the sticky flag when the array is full |
| `Generator.CfGen.Resolve` | src/c/capfilter.c:589-606 | patches exactly the listed fields, and fails exactly when an offset does not fit; an offset is never negative for a target at or behind the end of the code |
| `Generator.CfGen.EmitLeaf` | src/c/capfilter.c:608-626 | appends a leaf's code with one true and one false patch, failing exactly when there is no room |
| `Generator.CfGen.CompileNode` | src/c/capfilter.c:640-728 | the recursive generator appends exactly the specified code, patch lists and log of patches, and succeeds if and only if the code exists and fits |
| `Generator.CfGen.Generate` | src/c/capfilter.c:771-788 | generating, appending the two returns and resolving both lists gives the specified program or the error, and the check for a negative offset never fires |
| `CapAst.Node.LeavesBound` | src/c/capfilter.c:293-323 | a tree has at most one leaf more than half its nodes |
| `CapAst.NetFullPrefixIsHost` | src/c/capfilter.c:699-707 | a /32 network is the host |
| `CapAst.NetEmptyPrefixMatchesAll` | src/c/capfilter.c:633-638 | a /0 network accepts exactly the frames long enough to hold the address |
| `CapAst.NetNarrows` | src/c/capfilter.c:699-707 | a longer prefix matches a subset |
| `Grammar.AcceptsExactlyTheGrammar` | src/c/capfilter.h:26-33 | for any primitives obeying the laws, a closed token list parses to e if and only if some derivation of the grammar yields it and stands for e, with left association and not over and over or |
| `Grammar.PrintThenParse` | src/c/capfilter.c:504-544 | printing any valid expression and parsing it gives it back |
| `Grammar.PrintedIsShortest` | src/c/dispfilter.h:37-40 | no derivation of the same expression uses fewer tokens than the printed one |
| `Grammar.ParsedIsValid` | src/c/dispfilter.c:514-590 | only valid primitives are ever accepted |
| `CapLanguage.CaptureIsLawful` | src/c/capfilter.c:397-502 | reading a capture primitive and spelling it are inverse in both directions |
| `CapLexer.Lex` | src/c/capfilter.c:140-261 | the scanning loop computes the specified outcome on every text; the end marker is stored behind the array if and only if there are exactly 256 tokens, and up to 255 the list is closed by its only end marker |
| `Lexing.StaysInsideUnless256` | src/c/dispfilter.c:288-288 | for any lawful lexer, a list of up to 255 tokens is closed by its only end marker, and exactly 256 overrun the array |
| `CapLexer.ParensOverrun` | src/c/capfilter.c:259-259 | 256 parentheses are such a text |
| `Lexing.RenderLexes` | src/c/capfilter.c:140-261 | for any lawful lexer, any list of tokens, written out with a blank behind each, lexes to itself |
| `Lexing.TokensAreSpelled` | src/c/dispfilter.c:280-431 | for any lawful lexer, a text that lexes is made of its tokens' spellings, in order, and of blanks: nothing is invented or skipped |
| `Lexing.LexesExactly` | src/c/dispfilter.c:280-431 | for any lawful lexer, a text lexes to a token list if and only if it can be cut into spellings of those tokens, in order, and blanks, where no spelling is followed by a character that would go on with it; so no blank is needed where nothing sticks |
| `Lexing.TextThen` | src/c/capfilter.c:140-261 | a text followed directly by one whose first character goes on with no word lexes to the tokens of both |
| `Lexing.WordThen` | src/c/capfilter.c:140-261 | the same for one word and whatever does not go on with it |
| `CapLexer.LexerIsLawful` | src/c/capfilter.c:140-261 | every token that is read is spelled out in the text and as long as it can be, every spelling that stands apart from what follows is read, and every token can be written |
| `CapPhrases.WordsMean` | src/c/capfilter.c:95-105 | the tokens of `and`, `or`, `not`, `src`, `dst`, `host`, `port` and `net`, word by word |
| `CapPhrases.ProtocolsMean` | src/c/capfilter.c:95-105 | the tokens of the six protocol names, word by word |
| `CapPhrases.SignsMean` | src/c/capfilter.c:155-190 | the tokens of the parentheses, `/`, `!`, `&&` and the double bar |
| `CapPhrases.NoOtherNames` | src/c/capfilter.c:227-250 | a name outside these fourteen words does not lex |
| `CapPhrases.ProtocolText` | src/c/capfilter.h:26-26 | each protocol name is the filter for that protocol |
| `CapPhrases.HostText` | src/c/capfilter.h:27-27 | `host` and any text of an address, behind `src`, `dst` or neither, is the filter for that host in that direction |
| `CapPhrases.PortText` | src/c/capfilter.h:28-28 | the same for `port` and any digits up to 65535 |
| `CapPhrases.NetText` | src/c/capfilter.h:29-29 | the same for `net`, an address, a slash and a length up to 32, with no blank around the slash |
| `CapPhrases.ProtocolsInNet` | src/c/capfilter.h:26-33 | `(tcp or udp) and net 10.0.0.0/8`, for all protocols, addresses and lengths, is the conjunction it reads as |
| `Phrases.PhrasesDenote` | src/c/capfilter.h:26-33 | in either language, a text of fewer than 256 tokens stands for an expression if and only if the grammar derives it as a phrase for that expression |
| `Phrases.InParentheses` | src/c/dispfilter.h:40-40 | any phrase in parentheses, without blanks, is the same expression and may stand anywhere |
| `Phrases.Negation` | src/c/dispfilter.h:40-40 | `not` or `!` in front of a phrase that is no conjunction or disjunction negates it |
| `Phrases.Conjunction` | src/c/dispfilter.h:39-39 | `and` or `&&` between phrases joins them, to the left |
| `Phrases.Disjunction` | src/c/dispfilter.h:38-38 | `or` or the double bar between phrases joins them, to the left and looser than `and` |
| `Phrases.TightNegation` | src/c/dispfilter.h:40-40 | in front of parentheses the operator needs no blank |
| `Phrases.TightConjunction` | src/c/dispfilter.h:39-39 | nor between parentheses, for `and` and `&&` |
| `Phrases.TightDisjunction` | src/c/dispfilter.h:38-38 | nor for `or` and the double bar |
| `CapParser.Parser.MkNode` | src/c/capfilter.c:293-305 | takes the next arena slot, or fails exactly when the parser has failed or the arena is full |
| `CapParser.Parser.Advance` | src/c/capfilter.c:385-393 | the cursor never passes the end marker |
| `CapParser.Parser.ParsePrimitive` | src/c/capfilter.c:397-502 | consumes what the grammar's primitive reader consumes, and leaves the desugared tree in the arena with children below their parents; fails exactly when it does not parse or does not fit |
| `CapParser.Parser.ParseNot` | src/c/capfilter.c:504-524 | the same for not_expr, terminating on every token list, also after an error |
| `CapParser.Parser.ParseAnd` | src/c/capfilter.c:526-534 | the same for and_expr, grouping to the left |
| `CapParser.Parser.ParseExpr` | src/c/capfilter.c:536-544 | the same for or_expr |
| `CapParser.Parser.MkL4Proto` | src/c/capfilter.c:370-376 | a protocol keyword becomes the IPv4 type test and the protocol test |
| `Literals.ParseIpv4Word` | src/c/capfilter.c:107-138 | the character loop accepts exactly four decimal octets joined by dots and returns their values |
| `Literals.FourParts` | src/c/capfilter.c:107-138 | any four decimal numbers up to 255 with dots between them are those four bytes, in that order |
| `Literals.OnlyFourParts` | src/c/capfilter.c:107-138 | and nothing else is an address |
| `Text.DecByPlace` | src/c/capfilter.c:215-222 | the value of a decimal word, by each digit's place in "0123456789" |
| `Literals.Ipv4RoundTrip` | src/c/ip_parser.c:82-86 | every printed IPv4 address parses back to its bytes |
| `Literals.NoDotsNoAddress` | src/c/dispfilter.c:126-157 | a word without dots is no IPv4 address |
| `Literals.ParseMacWord` | src/c/dispfilter.c:159-178 | the loop accepts exactly six pairs of hex digits joined by colons |
| `Text.HexNibbleIsPlace` | src/c/dispfilter.c:116-124 | the value of a hexadecimal digit is its place in "0123456789abcdef" or "0123456789ABCDEF", and -1 for every other character |
| `LetterCase.MacSame` | src/c/dispfilter.c:159-178 | two words that differ only in the case of their letters are the same MAC address, or neither is one |
| `Literals.MacRoundTrip` | src/c/eth_parser.c:47-52 | every printed MAC address parses back to its bytes |
| `LetterCase.MacInEitherCase` | src/c/dispfilter.c:159-178 | a printed MAC address with any of its letters in upper case parses to the same bytes and is one MAC token |
| `Ipv6Literal.ParseHextetList` | src/c/dispfilter.c:180-219 | the loop splits at colons and accepts exactly lists of one to four hex digits, with their values |
| `Text.HexByPlace` | src/c/dispfilter.c:180-219 | one more digit makes a group sixteen times as large, plus the digit |
| `Ipv6Literal.FindDoubleColon` | src/c/dispfilter.c:221-278 | finds the first "::" |
| `Ipv6Literal.ParseIpv6Word` | src/c/dispfilter.c:221-278 | the two-sided parser returns the sixteen bytes of the specified groups |
| `Ipv6Forms.AcceptedForms` | src/c/dispfilter.c:221-278 | every accepted word is eight groups, or left "::" right standing for left, zeros, right of eight groups (section 2.2 of RFC 4291) |
| `Ipv6Forms.CompressedForm` | src/c/dispfilter.c:221-278 | every such compressed word of at most seven groups is accepted with that value |
| `Ipv6Forms.FullForm` | src/c/dispfilter.c:180-219 | every full word is accepted with its groups' values |
| `Ipv6Forms.AtMostOneDouble` | src/c/dispfilter.c:221-278 | an accepted word has at most one "::" |
| `Ipv6Forms.Ipv6RoundTrip` | src/c/ipv6_parser.c:46-54 | every printed IPv6 address parses back to its bytes |
| `LetterCase.Ipv6Same` | src/c/dispfilter.c:221-278 | the case of the letters does not matter for an IPv6 literal, compressed or not |
| `LetterCase.Ipv6InEitherCase` | src/c/dispfilter.c:221-278 | a printed IPv6 address with any of its letters in upper case parses to the same bytes and is one IPv6 token |
| `Ipv6Forms.CompressedRoundTrip` | src/c/dispfilter.c:221-278 | so does every form in which one run of zero groups is replaced by "::" |
| `Ipv6Forms.MacIsNotIpv6` | src/c/dispfilter.c:339-400 | no word is both a MAC and an IPv6 address, so the order in which they are tried does not matter |
| `DispLexer.Lex` | src/c/dispfilter.c:280-431 | the scanning loop computes the specified outcome on every text, with the same exact condition for storing the end marker behind the array |
| `DispLexer.LexerIsLawful` | src/c/dispfilter.c:280-431 | every token that is read is spelled out in the text and as long as it can be, every spelling that stands apart from what follows is read, and every token can be written |
| `DispPhrases.WordsMean` | src/c/dispfilter.c:90-113 | the tokens of `and`, `or`, `not`, the parentheses, `!`, `&&`, the double bar, `==` and `!=`, one by one |
| `DispPhrases.FieldsMean` | src/c/dispfilter.c:94-111 | each of the fifteen field names is the token of its layer and end |
| `DispPhrases.NoOtherNames` | src/c/dispfilter.c:402-420 | a name outside these eighteen words does not lex |
| `DispPhrases.ComparisonMeans` | src/c/dispfilter.h:31-36 | a field name, `==` or `!=`, and any literal, with blanks around the operator or without, is that comparison if the literal is of the field's kind, and no filter otherwise |
| `DispLexer.MacTextLexes` | src/c/eth_parser.c:47-52 | a printed MAC address is one MAC token with the same bytes |
| `DispLexer.Ipv4TextLexes` | src/c/ip_parser.c:82-86 | a printed IPv4 address is one IPv4 token with the same bytes |
| `DispLexer.Ipv6TextLexes` | src/c/ipv6_parser.c:46-54 | a printed IPv6 address is one IPv6 token with the same bytes |
| `DispLanguage.DisplayIsLawful` | src/c/dispfilter.c:514-590 | reading a comparison and spelling it are inverse in both directions, and only well-typed ones are read |
| `DispParser.Parser.MkNode` | src/c/dispfilter.c:481-493 | takes the next arena slot, or fails exactly when the parser has failed or the arena is full |
| `DispParser.Parser.Advance` | src/c/dispfilter.c:505-510 | the cursor never passes the end marker |
| `DispParser.Parser.ParsePrimitive` | src/c/dispfilter.c:514-590 | leaves the comparison in the arena, or fails exactly when the words are not one or the arena is full |
| `DispParser.Parser.ParseNot` | src/c/dispfilter.c:592-612 | the arena holds the grammar's tree and the cursor stands at its end, or the parser failed because there is none or it does not fit |
| `DispParser.Parser.ParseAnd` | src/c/dispfilter.c:614-627 | the same for and_expr, grouping to the left |
| `DispParser.Parser.ParseExpr` | src/c/dispfilter.c:629-642 | the same for or_expr |
| `DispFilter.Compile` | src/c/dispfilter.c:730-782 | compiling imperatively gives the specified result on every text; it matches everything if and only if the text is absent or empty |
| `DispFilter.ResultsExactlyWhen` | src/c/dispfilter.c:730-782 | which texts match everything, overrun the token array, compile to a tree or are rejected: each an if-and-only-if on the text, its tokens and its filter |
| `DispFilter.CompiledIsWellTyped` | src/c/dispfilter.c:650-712 | in whatever compiles, every comparison reads the union member that the parser wrote |
| `DispFilter.NotEqualOnAbsentLayer` | src/c/dispfilter.c:711-711 | `tcp.port != 443` is true of a frame without TCP, against the header |
| `DispFilter.AbsentLayerIsFalseOnlyForEqual` | src/c/dispfilter.h:68-70 | a comparison on an absent layer is false if and only if it is `==` |
| `DispFilter.TextDenotesFilter` | src/c/dispfilter.c:280-431 | every well-typed filter within the token limit, written out, is read back as itself |
| `DispFilter.TextCompiles` | src/c/dispfilter.c:730-782 | and compiles: a filter within the token limit never exceeds the node arena |
| `DispFilter.TextIsGrammatical` | src/c/dispfilter.h:31-40 | a text denotes a filter if and only if its tokens are a derivation of the documented grammar |
| `Checksum.Partial` | src/c/checksum.c:3-14 | the loop adds the sum of the big-endian words, an odd last byte padded with zero, modulo 2^32 |
| `Checksum.FoldLoop` | src/c/checksum.c:16-29 | folding until 16 bits are left |
| `Checksum.TwoFoldsSuffice` | src/c/checksum.c:16-29 | two folds always reach 16 bits |
| `Checksum.FoldIsAllOnes` | src/c/checksum.c:16-29 | the fold is 0xFFFF if and only if the sum is a nonzero multiple of 65535 |
| `Checksum.NoWrap` | src/c/checksum.c:3-14 | up to 65537 words the 32-bit accumulator never wraps |
| `Checksum.OneWordMoreWraps` | src/c/checksum.c:3-14 | the bound is exact: one word more can wrap, and a message whose sum is a nonzero multiple of 65535 is then refused |
| `Checksum.Verify` | src/c/checksum.c:16-29 | checksum_verify computes the specified predicate |
| `Checksum.VerifiesExactlyWhen` | src/c/checksum.c:16-29 | within the bound a message verifies if and only if its word sum is a nonzero multiple of 65535 (section 1 of RFC 1071) |
| `Checksum.GeneratedChecksumVerifies` | src/c/checksum.c:16-29 | storing the complement of the folded sum in a zeroed aligned word always verifies |
| `Checksum.SingleWordChange` | src/c/checksum.c:16-29 | changing one aligned word of a valid message leaves it valid if and only if 0x0000 and 0xFFFF are exchanged and the message is not all zero |
| `Checksum.WordSumAppend` | src/c/checksum.c:31-58 | chaining after a part of even length is concatenation |
| `Checksum.VerifyIpv4Pseudo` | src/c/checksum.c:31-58 | verifies pseudo-header and segment; within the bound it is true if and only if the word sums of both addresses and the segment, the protocol and the length add up to a nonzero multiple of 65535 |
| `Checksum.VerifyIpv6Pseudo` | src/c/checksum.c:60-102 | the same with the length as two words and the next header (section 8.1 of RFC 2460) |
| `Decode.EthParse` | src/c/eth_parser.c:5-45 | accepts exactly the data that starts with the bytes of a header one can write, tagged or not, and returns that header with all that follows |
| `Decode.IpParse` | src/c/ip_parser.c:6-80 | accepts exactly the data that starts with the bytes of an IPv4 header, with any options, and returns it with the payload up to the end of the data or the declared total |
| `Decode.Ipv6Parse` | src/c/ipv6_parser.c:5-44 | accepts exactly the data that starts with the bytes of an IPv6 header, and returns it with all that follows |
| `Decode.TcpParse` | src/c/tcp_udp_parser.c:8-56 | accepts exactly the data that starts with the bytes of a TCP header, with any options, and returns it with all that follows |
| `Decode.UdpParse` | src/c/tcp_udp_parser.c:58-80 | accepts exactly the data that starts with the bytes of a UDP header, and returns it with all that follows |
| `Decode.TcpVerify` | src/c/tcp_udp_parser.c:82-89 | true exactly for a segment of at least 20 bytes that verifies with its pseudo-header: addresses, segment, 6 and the length add up to a nonzero multiple of 65535 |
| `Decode.UdpVerify` | src/c/tcp_udp_parser.c:91-108 | likewise with 17 and at least 8 bytes, but over IPv4 a zero checksum field is always accepted |
| `Decode.VerifyOverIpv6` | src/c/tcp_udp_parser.c:110-129 | over IPv6 there is no such exemption |
| `Decode.TransportInsideFrame` | src/cpp/packet_printer.cpp:87-232 | down to the TCP or UDP payload, over IPv4 and IPv6, tagged or not, every payload is the slice of the frame at the sum of the offsets above it, each inside the one before |
| `Decode.IpPayloadIsSmaller` | src/c/ip_parser.c:66-77 | the payload length is the smaller of captured and declared whenever the declared total covers the header (section 3.1 of RFC 791) |
| `Decode.SegmentFitsPseudoLength` | src/cpp/packet_printer.cpp:191-223 | for frames up to 65536 bytes no IPv4 segment exceeds the pseudo-header's 16-bit length |
| `PacketPrinter.PrintPacket` | src/cpp/packet_printer.cpp:49-256 | the descent through the layers fills exactly the specified fields; without a filter every frame is printed, and with one exactly the frames on whose fields its tree is true |
| `PacketPrinter.PrintUnfiltered` | src/c/dispfilter.c:749-751 | for an absent or empty display filter text every frame is printed |
| `PacketPrinter.PortsAreTransport` | src/cpp/packet_printer.cpp:109-232 | TCP or UDP ports are shown if and only if a transport header decodes on the network layer that the frame has |
| `WireFormat.EthRoundTrip` | src/c/eth_parser.c:5-45 | a header written out, tagged or not, is parsed back with its payload |
| `Decode.EthAccepts` | src/c/eth_parser.c:5-45 | parsing gives a header and payload if and only if writing them gives the data |
| `Decode.IpAccepts` | src/c/ip_parser.c:6-80 | parsing gives a header and payload length if and only if the data starts with that header, for some values of the skipped fields, and the length is the smaller of captured and declared |
| `Decode.Ipv6Accepts` | src/c/ipv6_parser.c:5-44 | parsing gives a header if and only if the data starts with it, for some values of the skipped fields |
| `Decode.TcpAccepts` | src/c/tcp_udp_parser.c:8-56 | parsing gives a header if and only if the data starts with it, for some values of the skipped fields and options |
| `Decode.UdpAccepts` | src/c/tcp_udp_parser.c:58-80 | parsing gives a header and payload if and only if writing them gives the data |
| `WireFormat.IpRoundTrip` | src/c/ip_parser.c:6-80 | an IPv4 header with any options is parsed back, and padding behind the datagram is cut off |
| `WireFormat.Ipv6RoundTrip` | src/c/ipv6_parser.c:5-44 | an IPv6 header written out is parsed back with its payload |
| `WireFormat.TcpRoundTrip` | src/c/tcp_udp_parser.c:8-56 | a TCP header with any options is parsed back with its payload |
| `WireFormat.UdpRoundTrip` | src/c/tcp_udp_parser.c:58-80 | a UDP header is parsed back with its payload |
| `WireFormat.SentFields` | src/cpp/packet_printer.cpp:87-232 | for every frame a sender can write (VLAN or not; IPv4 with options and padding, IPv6 or another type; TCP, UDP or another protocol) print_packet's fields are the sender's |
| `WireFormat.ComparisonMeansEnds` | src/c/dispfilter.c:650-712 | on such a frame `==` is true if and only if the layer is there and an end it asks about has the value, and `!=` is its negation |
| `WireFormat.FilterMeansEnds` | src/c/dispfilter.c:714-726 | every well-typed filter, with any `and`, `or` and `not`, evaluates to what it says about the sender's frame |
| `WireFormat.FilterTextMeansEnds` | src/c/dispfilter.c:730-797 | the same from the text: every well-typed filter of at most 255 tokens, written out, compiles and prints exactly the frames of which it is true |
| `SentCapture.FilterMeans` | src/c/capfilter.c:640-728 | on every such frame, tagged or not, no load of any valid capture filter fails, and its meaning is what it says about the sender's headers: protocols, hosts, ports, networks, in any combination |
| `SentCapture.TextDecidesSent` | src/c/capfilter.c:735-800 | the same from the text: the bytecode of any text that compiles returns 65535 if and only if the text is true of the sender's headers, and 0 otherwise |
| `Agreement.AgreesInSync` | src/c/capfilter.c:370-376 | on a frame in sync, every combination of host and port primitives has the same truth value in both filters and no load aborts |
| `Agreement.OutOfSyncDisagrees` | src/cpp/packet_printer.cpp:87-232 | on every other frame a filter of at most eight nodes tells them apart |
| `Agreement.AgreesExactlyWhenInSync` | src/c/capfilter.c:444-472 | both filters agree on every shared filter that compiles if and only if the bytes of the frame meet a stated condition: an Ethernet header; if its type is IPv4, an IPv4 header and the TCP or UDP header it announces decode; otherwise no IPv4 header decodes behind a VLAN tag and no TCP or UDP header decodes behind IPv6 |
| `Agreement.InSyncIsDecoded` | src/cpp/packet_printer.cpp:87-232 | that condition on bytes is equivalent to what print_packet decodes |
| `Agreement.CompiledAgrees` | src/c/dispfilter.c:714-726 | on a frame in sync the compiled bytecode accepts exactly what the display filter shows |
| `Agreement.FieldsAreBytes` | src/cpp/packet_printer.cpp:188-232 | on an IPv4 frame that decodes, the decoded fields are the bytes at the capture filter's offsets |
| `Agreement.FieldsByOffset` | src/cpp/packet_printer.cpp:87-232 | for every frame with an Ethernet header the MAC addresses are its bytes 6 to 12 and 0 to 6, whatever follows, and each further layer is shown if and only if it decodes, with the bytes at its place |
| `RawSocket.Receiver.Recv` | src/c/raw_socket.c:235-314 | the receiving loop computes the specified state and result, whatever kernel and signal handler do before each of its accesses to shared memory |
| `RawSocket.Receiver.LoopBody` | src/c/raw_socket.c:241-313 | one turn of the loop is exactly the specified sequence of accesses, with moves of the others between any two: stop flag, status, count, offset, copy, time stamps, next offset, store, cursor |
| `RawSocket.Receiver.CopyPacket` | src/c/raw_socket.c:283-299 | the copy and the time stamps come before the packet is counted |
| `RawSocket.Receiver.ReleaseBlock` | src/c/raw_socket.c:301-310 | the store of the kernel status, then the cursor; nothing is read from the block after the store |
| `RawSocket.Receiver.RequestStopNow` | src/c/raw_socket.c:344-349 | sets only the stop flag |
| `RawSocket.CallIsRun` | src/c/raw_socket.c:235-314 | a call, with any legal moves between its accesses, is a stretch of a run: it never reads what is not the process's and hands over exactly the next packet or nothing |
| `RingProtocol.StepKeeps` | src/c/raw_socket.c:241-313 | every move of kernel or signal handler and every single access of the receiver keeps ownership, cursor and delivery order |
| `RingProtocol.RingDelivers` | src/c/raw_socket.c:241-313 | in every run, interleaved between any two accesses, the frames delivered or in hand are the packets of the released blocks and the read ones of the current block, once and in order, across empty blocks and wrap-around; every access finds a block of the process and the header it is after |
| `RingProtocol.DeliveredIsPacket` | src/c/raw_socket.c:283-299 | in every run, frame number i is packet number i: its first 65536 bytes, its second, and its nanoseconds cut to the microsecond below |
| `RingProtocol.CopiedBeforeReleased` | src/c/raw_socket.c:283-310 | in every run, where the receiver is about to give a block back, the block is still its own and intact, all its packets are copied out, and the store changes that block's status and nothing else |
| `RingProtocol.OnlyTheStoreWrites` | src/c/raw_socket.c:271-310 | no other step of the receiver writes to a block |
| `RingProtocol.OwnershipIsExact` | src/c/raw_socket.c:241-313 | after every run, a slot is the process's if and only if it holds, intact, a block that was retired and is not yet released |
| `RingProtocol.NextProgress` | src/c/raw_socket.c:241-313 | while anything retired is undelivered and no stop is requested, every step of the receiver lowers a bound on the steps still needed, whether poll fails or not |
| `RingProtocol.Drains` | src/c/raw_socket.c:241-313 | left alone, the receiver delivers everything retired, in at most eight steps per packet, ten per block and eleven more |
| `QueueProtocol.StepKeeps` | src/cpp/packet_queue.cpp:3-40 | every step of either thread, spurious wakeups included, keeps mutual exclusion, pending notifications and conservation |
| `QueueProtocol.NeverBothAsleep` | src/cpp/packet_queue.cpp:10-40 | in every run a sleeper whose condition holds has a notification still to come from the other thread, the two are never both asleep, and the queue stays within its maximum |
| `QueueProtocol.NoRoomDeadlocks` | src/cpp/packet_queue.cpp:10-24 | with a maximum of zero, a run of six steps puts both threads to sleep, and no continuation, spurious wakeups included, ever receives or prints a frame or ends either thread |
| `QueueProtocol.DeadlockFreeExactlyWhen` | src/cpp/packet_queue.cpp:3-40 | no run gets stuck before both threads are done if and only if the maximum is at least one |
| `QueueProtocol.FramesConserved` | src/main.cpp:126-138 | in every run the frames received are, in order, those printed, at hand, queued, in flight and lost; at most one is lost; with a file every frame is recorded before it is printed |
| `QueueProtocol.FinishedHasSeenAll` | src/main.cpp:134-138 | when the printing loop ends, every frame handed to push has been printed once, and with a file exactly the recorded frames |
| `QueueProtocol.NothingLostExactlyWhen` | src/c/capture_backend_linux.c:186-208 | a frame is lost if and only if a record failed; the closed branch of push never drops one |
| `QueueProtocol.RunBudget` | src/cpp/packet_queue.cpp:3-40 | a run has at most 13 steps per frame, 3 per spurious wakeup, and the work at its start |
| `QueueProtocol.ShutdownCompletes` | src/cpp/packet_queue.cpp:33-40 | once the producer has left its loop, a run without spurious wakeups is no longer than the work left, and where it cannot go on both threads are done and everything is printed |
| `Pipeline.StepKeeps` | src/c/capture_backend_linux.c:186-208 | every step of the composed system keeps the invariants of ring and queue, and that the queue received what the ring delivered |
| `Pipeline.EndToEnd` | src/main.cpp:126-138 | in every run, printed followed by buffered frames are what the ring delivered; the printed ones are a prefix of what the kernel retired; at most max + 2 are buffered |
| `Pipeline.AllPrintedInTheEnd` | src/main.cpp:134-140 | when the printing loop ends, all that was received is printed, but for at most one frame whose record failed |
| `Pipeline.ShutdownCompletes` | src/main.cpp:126-140 | once a stop is requested, and with room for a frame, a run without spurious wakeups takes at most 48 steps of its own and six per place in the queue, receives at most one more frame, and where it cannot go on both threads are done and all that was received is printed, but for a failed record |
| `PipelineDrain.PrintsEverything` | src/main.cpp:126-138 | from every state of every run without a stop and with the capture thread in its loop, the program's own steps print every packet of every retired block, in at most twenty steps per frame not yet received, ten per block not given back, six per place in the queue, and 37 more |
| `FilteredCapture.PrintedFramesMatch` | src/c/capture_backend_linux.c:126-142 | with n packets stored in the ring before the filter was attached, every printed frame from number n on is what the kernel keeps (at most 65535 bytes, the program's verdict) of a frame on the wire, of any length, of which the capture filter's text is true |
| `FilteredCapture.AllMatchExactlyWhen` | src/c/capture_backend_linux.c:126-142 | all printed frames match the text if and only if the program would have kept the packets among them that were stored before it was attached |
| `FilteredCapture.EarlyFrameIsPrinted` | src/c/raw_socket.c:192-203 | any packet that the kernel retires before the first call is received and printed |
| `FilteredCapture.GapPrintsUnmatched` | src/c/capture_backend_linux.c:126-142 | so under every text that compiles there is a run in which all but the first packet passed the filter and a frame is printed that does not match it |

## Left out

- Socket setup, ioctl, poll, mmap and setsockopt: system calls; the kernel enters only as the legal moves of `Ring.Action`.
- Memory ordering of the block status and the atomics: steps are sequentially consistent.
- The bytes of one memcpy, and the two time stamps of one header, are read in one step each; the kernel writes only to blocks whose status gives it the right to.
- pcap bytes and fopen/fclose errors: a record only succeeds or fails; the order write, then callback is kept.
- Text summaries, the hex dump and the packet classes: presentation.
- ARP and ICMP parsers, and header fields no filter reads (type of service, identification, flags, sequence numbers, flow label): copies at fixed offsets, easy members only.
- IPv6 payload length and extension headers: the code does not look at them, so nothing is claimed.
- Error messages: a failure is a flag, or a result without a text.
- malloc, free, null pointers and statistics.
- raw_socket_recv's buffer length: fixed to the 65536 bytes that run_impl passes.
- Patch lists and token lists are passed by value: `Generator` returns the lists instead of filling structs behind pointers, which leaves out aliasing between them.
- `PacketQueue` is a machine on values, because its methods interleave inside; a class with atomic methods would hide exactly the steps that matter.
- The code generator takes the tree that the arena holds, as a value, instead of walking arena indices.
- The fuzz drivers, the fake backend and the unit tests other than the BPF interpreter.
