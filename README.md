# Post system and Turing machine emulators, modelled in Dafny

The repository has two small emulators of abstract machines.

**The Post system emulator** (`PostSystemEmulator.h`). A Post canonical system has:
- a working line;
- a set of variables;
- a set of axiom characters;
- an ordered list of rules `pattern -> placeholder`.

`PostSystemEmulator::applyAnyRule` tries the rules in order. For each rule, a fresh `RegexableRuleGenerator` compiles the pattern into an ECMAScript regular expression:
- a character that is not a variable becomes itself, escaped if special;
- a variable's first occurrence becomes the captured class `([axioms]+)`;
- a later occurrence becomes a captured back-reference `(\n)`.

`std::regex_search` then looks for the expression in the line. The first rule that is found has its leftmost match replaced by the placeholder. Each variable in the placeholder is replaced by what `processPlaceholder` recovers from the matched text. `run` repeats steps until no rule applies, and prints one row per step.

**The Turing machine simulator** (`TuringMachine.h`) has:
- a tape that grows on demand, padded with blanks;
- a carriage;
- a table of states, each mapping a symbol to a command (symbol to write, shift, next state).

`run` executes commands from state 0 until it has executed a command whose shift is `kStop`.

## Layout

| file | module | what it holds |
|---|---|---|
| `char_sets.dfy` | `CharSets` | `std::set<char>` as a strictly increasing `seq<char>` (its iteration order matters for the generated class text) |
| `decimal.dfy` | `Decimal` | `std::to_string` of a group number, and how the regex grammar reads the digits back |
| `regex_syntax.dfy` | `RegexSyntax` | the regex fragment the generator emits, its text (`Render`) and its parser (`Parse`), with the round trip |
| `regex_match.dfy` | `RegexMatch` | ECMAScript backtracking matching and the leftmost search for that fragment, against a declarative description (`Fits`) |
| `rule_generation.dfy` | `RuleGeneration` | `RegexableRuleGenerator` as a class over its three fields, plus the specification functions of compiling and placeholder processing |
| `post_system.dfy` | `PostSystem` | `Rule`, one rewrite, rule choice, the bounded run with its trace, and `PostSystemEmulator` as a class |
| `post_scenarios.dfy` | `PostScenarios` | consequences for particular rules: rules without variables, `1 -> 11`, `v#v -> #` |
| `turing_machine.dfy` | `TuringMachines` | `Shift`, `Command`, `Tape` and `TuringMachine` as classes, with the step and run specification |
| `multiplication.dfy` | `Multiplication` | the example program's unary multiplication table, run on `1*1=` |

## Behaviour worth knowing

- **Back-reference numbers.** `createVarGroup` numbers a variable by its rank among the DISTINCT variables. Yet every occurrence opens a capturing group, back-references included. So `\n` refers to the n-th variable occurrence, which for a pattern such as `vvww` is not the variable's own first occurrence: there `\2` refers to the second `v`. `BackRefNamesOrdinalOccurrence` states what a match enforces in general. `RepeatedVariableMismatch` shows `vvww` matching `1121` with the two `w`s standing for `2` and `1`. `SameVariableSameText` proves "same variable, same text" whenever no repeated occurrence comes before a later variable's first occurrence (`FirstOccurrencesLead`).
- **The back-reference is not anchored.** Take the rule `v#v -> #` with axiom `1`. A variable binds any non-empty run of axiom characters, not a maximal one, and the search is not anchored. So the compiled expression `([1]+)#(\1)` (`#` is not special and stays unescaped) matches `11#11` inside `11#111`, and the line becomes `#1` (`UnanchoredBackReference`, `BackReferenceRuns`). If variables stood for whole maximal runs, `11#111` would be left unchanged, since its two runs differ in length; the code does not work that way.
- **Placeholder values.** `processPlaceholder` does not read the captured groups. It searches the whole matched text again with the variable's class, so every variable of the pattern stands for the leftmost longest run of axiom characters in the matched text. A placeholder variable that does not occur in the pattern is inserted into the map with an empty expression and stands for the empty text.
- **No alphabet check.** Compiling never rejects a pattern character outside the alphabet. The parameter `a` of `createRegPattern` is unused.
- **Generator state.** The group map and the pattern text persist across calls to `createRegPattern`, and only the counter is reset. The emulator uses a fresh generator per rule, so this never shows there.

## Model

| member | source | states |
|---|---|---|
| `RegexSyntax.ConstGroup` | PostSystemEmulator.h:37-50 | a literal is one character, or two when it is one of the special characters, the first being a backslash; the last character is the literal itself |
| `Decimal.NatToString` | PostSystemEmulator.h:66 | a group number is written as decimal digits without a leading zero, one digit exactly for numbers below 10 |
| `Decimal.ValueOfNatToString` | PostSystemEmulator.h:66 | reading back the digits written for a group number gives that number |
| `Decimal.DigitPrefixOfNumeral` | PostSystemEmulator.h:66 | the regex grammar reads a written group number up to exactly its end when a non-digit follows |
| `RegexSyntax.ParseRender` | PostSystemEmulator.h:75-77 | the text built for well-formed terms is read by the regex compiler as exactly those terms |
| `RuleGeneration.RuleGenerator.constructor` | PostSystemEmulator.h:30-35 | a new generator has an empty map and an empty pattern text |
| `RuleGeneration.RuleGenerator.CreateVarGroup` | PostSystemEmulator.h:52-68 | a new variable gets the class text `[a1]+`, escaped in set order, recorded under the current counter, which then advances; a known variable yields `\` and its recorded number; nothing else changes; every group text in the map stays compilable |
| `RuleGeneration.RuleGenerator.AppendGroup` | PostSystemEmulator.h:74-78 | one loop iteration appends the text of exactly one compiled term and updates map and counter as compiling that character does; every group text in the map stays compilable |
| `RuleGeneration.RuleGenerator.CreateRegPattern` | PostSystemEmulator.h:71-81 | the counter restarts at 1; the pattern text becomes the old text followed by the text of the compiled terms; map and counter are those the compile pass leaves; the whole text is returned; every group text in the map stays compilable |
| `RuleGeneration.RuleGenerator.ProcessPlaceholder` | PostSystemEmulator.h:83-98 | the output and the map are those of the left-to-right placeholder pass; every group text stays compilable; pattern and counter are unchanged |
| `RuleGeneration.CompileFresh` | PostSystemEmulator.h:52-81 | for a fresh generator there is one term per pattern character: a literal for a non-variable, a class for a first occurrence, a back-reference to the variable's rank among distinct variables for a repeat; the map holds exactly the pattern's variables with their ranks |
| `RuleGeneration.CompiledWellFormed` | PostSystemEmulator.h:52-81 | compiled terms are all within the fragment the parser reads back |
| `RuleGeneration.CompileCharText` | PostSystemEmulator.h:75-77 | one compiled character appends `createConstGroup`'s text, `(` + back-reference + `)`, or `(` + class + `)` |
| `RuleGeneration.BackRefNamesOrdinalOccurrence` | PostSystemEmulator.h:62-66 | at a repeated variable occurrence, a match holds the text of the variable occurrence whose index equals the variable's rank, which comes earlier but may belong to another variable |
| `RuleGeneration.NumberingsAgree` | PostSystemEmulator.h:62-66 | when first occurrences lead, the occurrence a back-reference names is the variable's own first occurrence |
| `RuleGeneration.SameVariableSameText` | PostSystemEmulator.h:62-66 | when first occurrences lead, every match gives all occurrences of a variable the same text |
| `RuleGeneration.MismatchTerms` | PostSystemEmulator.h:62-66 | `vvww` compiles to class, `\1`, class, `\2` |
| `RuleGeneration.RepeatedVariableMismatch` | PostSystemEmulator.h:62-66 | `vvww` matches `1121` from position 0 with pieces `1`, `1`, `2`, `1`: equal variables with unequal texts |
| `RuleGeneration.PlaceholderChar` | PostSystemEmulator.h:86-95 | one placeholder character keeps every map entry compilable, including the empty entry inserted for a missing variable |
| `RuleGeneration.ClassGroupValue` | PostSystemEmulator.h:88-92 | searching the matched text with a variable's group text finds the leftmost longest run of axiom characters |
| `RuleGeneration.PlaceholderAfterCompile` | PostSystemEmulator.h:114-119 | after compiling a rule, processing the placeholder replaces each pattern variable by the leftmost longest axiom run of the matched text, drops other variables and copies all other characters |
| `RegexMatch.MatchSound` | PostSystemEmulator.h:117 | whatever the backtracking matcher returns splits the text into pieces each accepted by its term |
| `RegexMatch.MatchBest` | PostSystemEmulator.h:117 | whenever a split exists the matcher succeeds, and its result comes first in backtracking order (greedy classes) |
| `RegexMatch.SearchFindsLeftmost` | PostSystemEmulator.h:117-119 | a reported match is a split at the leftmost position that has one, covering exactly the reported span, preferred over every other split there |
| `RegexMatch.SearchFailsOnlyWithoutFit` | PostSystemEmulator.h:117-122 | the search reports nothing only when no position has a split |
| `RegexMatch.SearchClass` | PostSystemEmulator.h:90-91 | a lone class finds something exactly when the text holds an axiom character, and then finds the leftmost longest run |
| `PostSystem.Apply` | PostSystemEmulator.h:119 | replacing a span keeps the text before it and after it, and puts the replacement in between |
| `PostSystem.RuleRewrite` | PostSystemEmulator.h:112-123 | a rewrite's span lies within the line |
| `PostSystem.RuleRewriteFound` | PostSystemEmulator.h:112-123 | an applied rule rewrites the leftmost place its compiled pattern fits, exactly the text of the fit that comes first in backtracking order there (greedy classes), with the placeholder instantiated from the leftmost axiom run |
| `PostSystem.RuleRewriteNone` | PostSystemEmulator.h:117-122 | a rule that does not apply fits nowhere in the line |
| `PostSystem.FirstApplicableFrom` | PostSystemEmulator.h:125-134 | the chosen rule applies and every earlier rule does not; with no choice, no rule applies |
| `PostSystem.FirstApplicableIs` | PostSystemEmulator.h:125-134 | the first rule that applies, with all earlier ones failing, is the choice |
| `PostSystem.RunWith` | PostSystemEmulator.h:163-173 | a bounded run has at most one row per step, and exactly as many rows as the bound when it did not halt |
| `PostSystem.RunSteps` | PostSystemEmulator.h:163-172 | every printed row is a step: its rule text and its "after" line are what one step gives on its "before" line |
| `PostSystem.RunChain` | PostSystemEmulator.h:161-174 | the rows chain: the first starts from the initial line, each row's "after" is the next row's "before", the last ends on the returned line |
| `PostSystem.RunHaltsAtFixpoint` | PostSystemEmulator.h:163-174 | a run that halted ends on a line where no step is possible |
| `PostSystem.HaltIsFinal` | PostSystemEmulator.h:163-174 | from a line where no step is possible the run stops at once, with no rows |
| `PostSystem.RunMoreFuel` | PostSystemEmulator.h:163-173 | a halted run gives the same rows and line with a larger bound |
| `PostSystem.EmulatorHaltsAtFixpoint` | PostSystemEmulator.h:125-134 | a halted run of the emulator ends on a line to which no rule applies |
| `PostSystem.PostSystemEmulator.constructor` | PostSystemEmulator.h:137-143 | the four collections are kept as given |
| `PostSystem.PostSystemEmulator.ApplyRule` | PostSystemEmulator.h:112-123 | reports true exactly when the rule applies; the line is then rewritten by the rule's rewrite, and otherwise unchanged |
| `PostSystem.PostSystemEmulator.ApplyAnyRule` | PostSystemEmulator.h:125-134 | applies the first applicable rule in list order and records it as the last rule; with none, changes nothing and reports false |
| `PostSystem.PostSystemEmulator.SetLine` | PostSystemEmulator.h:145-148 | the line becomes the given text |
| `PostSystem.PostSystemEmulator.Run` | PostSystemEmulator.h:150-175 | the returned line, the final line, the rows and the halting flag are those of the bounded run from the line before the call; the last rule is the one of the last row printed, and is unchanged when no row was printed |
| `PostScenarios.LiteralRuleRewrite` | PostSystemEmulator.h:112-123 | a rule without variables applies exactly when its pattern occurs in the line, and then replaces the first occurrence by the placeholder |
| `PostScenarios.FitsLiterals` | PostSystemEmulator.h:43-50 | the compiled text of a pattern without variables fits exactly where the pattern occurs |
| `PostScenarios.GrowthNeverHalts` | PostSystemEmulator.h:163-173 | with `1 -> 11`, a run from a line holding a `1` never halts, and the line grows by one character per step |
| `PostScenarios.BackRefFitShape` | PostSystemEmulator.h:52-81 | every fit of `v#v` is a run of `1`s, then `#`, then the same run again |
| `PostScenarios.GrowthStep` | PostSystemEmulator.h:112-134 | with `1` not a variable, `1 -> 11` applies to every line holding a `1`, lengthens it by one and leaves a `1` in it |
| `PostScenarios.BackRefTerms` | PostSystemEmulator.h:52-81 | `v#v` compiles to a class group, the literal `#` and a back-reference to group 1 |
| `PostScenarios.BackRefNowhere` | PostSystemEmulator.h:117-122 | `v#v` applies to no line whose only `#` is its first character |
| `PostScenarios.UnanchoredBackReference` | PostSystemEmulator.h:112-123 | `v#v -> #` rewrites the first five characters of any line starting with `11#11`, so `11#111` becomes `#1` |
| `PostScenarios.BackReferenceRuns` | PostSystemEmulator.h:150-175 | the run from `11#11` halts at `#` after one row; the run from `11#111` halts at `#1` after one row |
| `TuringMachines.Grown` | TuringMachine.h:53-59 | accessing a cell past the end pads the tape with blanks up to that cell; the existing contents stay as they were; a cell that exists changes nothing |
| `TuringMachines.Written` | TuringMachine.h:53-59 | storing a symbol sets that cell and keeps every other cell, new cells being blank |
| `TuringMachines.Tape.constructor` | TuringMachine.h:49-51 | the tape holds the given text |
| `TuringMachines.Tape.Read` | TuringMachine.h:53-59 | reading a cell grows the tape as an access does and returns that cell's symbol |
| `TuringMachines.Tape.Write` | TuringMachine.h:53-59 | writing a cell grows the tape as an access does and then sets the cell |
| `TuringMachines.Tape.Str` | TuringMachine.h:61-64 | the text returned is the tape's contents |
| `TuringMachines.Step` | TuringMachine.h:112-116 | an iteration that continues names a state inside the table, and one that ends does so with a halt or a fault |
| `TuringMachines.StepSpec` | TuringMachine.h:112-116 | one iteration never shrinks the tape and covers the carriage; it changes no cell but the carriage's; a missing command or a left move from cell 0 faults before writing; otherwise it writes the replacement and moves by the shift, and it continues exactly when the shift is not `kStop` and the next state exists |
| `TuringMachines.TapeNeverShrinks` | TuringMachine.h:108-117 | a run never makes the tape shorter |
| `TuringMachines.RunMoreFuel` | TuringMachine.h:112-116 | a run that ended before its bound ends the same way with a larger bound |
| `TuringMachines.HaltedByStop` | TuringMachine.h:112-116 | a halted run ends with a `kStop` command: for some k below the bound, the run of k commands has not ended, and one `kStop` command from its configuration (writing its replacement, carriage left where it was) gives the final configuration |
| `TuringMachines.TuringMachine.constructor` | TuringMachine.h:83-86 | alphabet and states are kept, the tape is empty and the carriage is at cell 0 |
| `TuringMachines.TuringMachine.ExecCommand` | TuringMachine.h:75-80 | the cell under the carriage gets the replacement and the others are unchanged; the carriage moves by the shift; the next state index is returned |
| `TuringMachines.TuringMachine.FillTape` | TuringMachine.h:88-91 | the tape is replaced and the carriage is not reset |
| `TuringMachines.TuringMachine.GetTape` | TuringMachine.h:93-96 | returns the tape's contents |
| `TuringMachines.TuringMachine.IsValidTape` | TuringMachine.h:98-106 | true exactly when every character is in the alphabet (so the empty text is valid) |
| `TuringMachines.TuringMachine.Run` | TuringMachine.h:108-117 | the outcome, the tape and the carriage are those of the bounded run from state 0, the current tape and the current carriage |
| `Multiplication.OneTimesOne` | main.cpp:35-69 | the example program's table, on the tape `1*1=`, halts after twelve commands with `x*1=1` on the tape and the carriage on cell 1 |

## Left out

- The definition loader `PostSystemSourceDataParser` and both builder classes are not part of this model. The model starts from the parsed sets, the rule list and the initial line, or from an alphabet and a state table.
- The console output of `PostSystemEmulator::run` is left out. It is modelled as the list of (line before, rule text, line after) rows that it prints, without the column formatting.
- `main.cpp`'s file reading and writing are left out. Only its transition table is used.
- `std::regex` is modelled only on the fragment the generator emits: literals, `[...]+`, back-references and capturing groups. The engine as a whole is not modelled.
- `PostSystem.PostSystemEmulator.Run`: both `run` loops are unbounded in the source. The model takes a `fuel` bound and reports whether the run halted or ran out, so a run longer than the bound is not described.
- `TuringMachines.TuringMachine.Run`: takes a `fuel` bound in the same way. It also reports the undefined cases as faults instead of modelling them:
  - a symbol with no command, where `std::map::operator[]` would supply an uninitialised command;
  - a next state index outside the table;
  - a left move from cell 0. The `size_t` carriage wraps to 2^64 - 1; in the next access `index + 1` wraps to 0, so `resize(0, ' ')` empties the tape and the cell read lies past its end.

  The left move from cell 0 is reported before that command writes.
- `TuringMachines.TuringMachine.ExecCommand`: requires that the command does not move left from cell 0. The source wraps the unsigned carriage there.
- `RuleGeneration.RuleGenerator.constructor`: the counter's initial value is left unspecified, since the source leaves `groupCounter` uninitialised. `createRegPattern` sets it before use.
- `char` is Dafny's `char`, not a signed C++ byte. Nothing in the core depends on the difference.
- `match[1]` is read in `applyRule` but never used, so it is not modelled.
- `PostSystem.RuleRewrite`: its contract states only the span bounds. What the rewrite is comes from `RuleRewriteFound` and `RuleRewriteNone`.
