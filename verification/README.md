# A verified model of parts of alsa-lib

This project models four parts of alsa-lib in Dafny and proves what they promise.
Check it with `dafny verify dfyconfig.toml`.

**The ALSA Lisp interpreter** (`src/alisp/alisp.c`, `src/alisp/alisp_local.h`). The
interpreter counts references in an unusual way: a tree is shared by counting up every
object once for every car/cdr path that leads to it. `LispEval` says what a program
means, on S-expressions. `LispMemory`, `LispOwnership`, `LispTrees` and `LispCells` are
the object store - pool, used lists, counters, interned atoms, variables - and a ledger
of its owners. `LispInterp` is the interpreter itself, mutually recursive and working on
the store: every function consumes one owned tree and returns one, counts are exactly
the paths of all owners in every state in between, and the result is the one `LispEval`
gives. `LispLaws` says what each builtin computes, as laws between programs. `LispText`
is the textual form, `LispRoundTrip` shows that reading undoes printing, `LispDump` that
loading a memory dump restores the variables. `LispLexer`, `LispReader`, `LispPrinter`
and `LispTop` do the same work on characters and objects, and `LispSurface` holds the
conventions of the text. `LispScoping`, `LispEquality` and `LispWord` hold dynamic
scoping, `eq` against `equal`, and the word that packs type and count.

**The configuration tree** (`src/conf.c`, `src/confmisc.c`). `ConfText` and `ConfParse`
are the lexer and the parser as functions, with every mode, error and position;
`ConfInput` and `ConfReader` are the code: it reads from an input with one character of
pushback, changes nodes in place, and computes these functions. `ConfRoundTrip` proves
that a saved tree loads as itself, `ConfStrings` which strings survive, `ConfSkip` that
skipped text is skipped exactly, `ConfAssign` what a line in a file does to a tree,
`ConfUnique` that ids stay unique, `ConfModes` what the prefixes of a definition mean,
and `ConfSyntax` the conventions of a file. `ConfSearch` follows keys and aliases,
`ConfAlias` says where these lead; `ConfArgs` parses argument strings, `ConfBraces`
those in braces, and `ConfBlock` follows them into the block they are for; `ConfFolds`
holds the passes over numbered children. `ConfHeap`, `ConfDelete`, `ConfNodes`,
`ConfTakeOver` and `ConfExpand` work on nodes as objects with parents and children,
`ConfSubstitute` on the list heads themselves, and `ConfRings` ties the two together.

**The begin/end counters** (`include/iatomic.h`) in `AtomicCounters`: one writer and any
number of readers, interleaved in every possible way.

**The intrusive lists** (`include/list.h`) in `RingList`: nodes with `next` and `prev`,
refined to sequences.

## Where the code does not do what is said about it

- A string with a backslash is not read back from its printed form by the Lisp reader
  (`src/alisp/alisp.c:1637-1655` does not escape it): `LispRoundTrip.StringReadsBack`
  gives the exact condition.
- A lambda whose cdr is not a cons cannot be dumped: `dump_objects` follows the car of an
  atom (`src/alisp/alisp.c:1001-1005`). `LispDump.IsDumpable` excludes exactly these,
  and `LispDump.Undumpable` shows that they occur.
- A parameter that occurs twice in a lambda keeps the first of its two values after the
  call if it was bound before, and one that the body unsets stays unbound
  (`src/alisp/alisp.c:2348-2366`): `LispScoping.RestoredExactly`,
  `LispScoping.TwiceTheSame`.
- A configuration string with a backslash, a newline or an unprintable character does not
  survive saving and loading (`src/conf.c:858`, `src/conf.c:1371`):
  `ConfStrings.StringReadsBack`.
- `?key.more` for an existing key is skipped, but if the brackets at its end do not match,
  `key` is deleted (`src/conf.c:1171-1175`, `src/conf.c:1249-1251`):
  `ConfSkip.SkipExactly`, `ConfSkip.SkippingDeletes`.
- An array that is read into a compound which has children does not check its ids against
  theirs (`src/conf.c:943-944`): `ConfUnique.ElementExactly`,
  `ConfUnique.TwiceTheSameId`.
- `snd_config_substitute` is documented to append the source's children to those of the
  destination. It drops the latter, and with an empty compound as the source, or a scalar
  that a compound replaces, the destination's list leads to the freed source node:
  `ConfSubstitute.Substitute`, `ConfSubstitute.CopyHead`, `ConfRings.Substitute` and
  `ConfTakeOver.SubstituteKeepsForest` give the exact conditions.
- Arguments in braces are documented to give the same result as others. They do so only
  where a value has by itself the type that the parameter declares (`src/conf.c:4530-4567`):
  `ConfBraces.BracedIsNamed`, and for the documentation's own example `ConfBraces.CardExample`.
- An error inside an array element is reported but forgotten if the brackets close
  (`src/conf.c:1110`), so reading and skipping can part ways: `ConfSkip.SwallowedError`.
- `@func imul` is documented to multiply, but starts from zero (`src/confmisc.c:462`):
  `ConfFolds.FoldIntegers`.
- A blank in front of the name of an argument, as in `CARD=0, DEV=1`, makes it another name
  (`src/conf.c:4576-4583` copies it from the start of the blanks): `ConfArgs.BlanksBefore`.
- An accepted read may be torn once 2^32 writes have gone by inside it:
  `AtomicCounters.UntornExactly`.

## Model

| member | source | states |
|---|---|---|
| LispMemory.Instance.TakeObject | src/alisp/alisp.c:132-146 | a new object is one that nobody refers to: recycled from the pool, or at an address not in use; the pool keeps holding exactly the objects without references |
| LispMemory.Instance.NewObject | src/alisp/alisp.c:128-160 | the new object has one reference, the counters stay exact and `max_objs` stays an upper bound |
| LispMemory.Instance.NewCons | src/alisp/alisp.c:128-160 | adds one owner of one fresh `(nil . nil)` to the ledger; every other owner still sees the same contents |
| LispMemory.Instance.IncrefObject | src/alisp/alisp.c:212-223 | adds exactly one owner to the ledger |
| LispMemory.Instance.DeleteObject | src/alisp/alisp.c:175-199 | removes exactly one owner; the object goes with the last one, and no other owner's object changes |
| LispMemory.Instance.FreeLast | src/alisp/alisp.c:186-199 | takes the object off the one list that holds it and keeps all counters exact |
| LispMemory.Instance.ReleaseObject | src/alisp/alisp.c:191-199 | the pool never holds more than 512 objects; beyond that the object is freed |
| LispMemory.Instance.SearchObject | src/alisp/alisp.c:297-345 | finds a live object with the value if one may still be shared, and says that all others are past the reuse limit if not |
| LispMemory.Instance.NewAtom | src/alisp/alisp.c:381-445 | one more owner of an object with this value; no two live atoms get equal values while no count has passed the reuse limit |
| LispMemory.Instance.AddAtom | src/alisp/alisp.c:388-393 | a value nobody holds gets one new object, in the list of its hash and type |
| LispWord.Header.SetType | src/alisp/alisp_local.h:75-79 | storing the type leaves the count alone |
| LispWord.Header.SetRefs | src/alisp/alisp_local.h:87-91 | storing a count keeps its low 28 bits and leaves the type alone |
| LispWord.Header.IncRefs | src/alisp/alisp_local.h:98-103 | counts up modulo 2^28 without reaching the type |
| LispWord.Header.DecRefs | src/alisp/alisp_local.h:105-110 | counts down modulo 2^28 without reaching the type; returns zero for the last reference |
| LispWord.FieldsAreIndependent | src/alisp/alisp_local.h:70-110 | any run of retyping, setting, counting up and counting down acts on the one word as on two separate variables |
| LispTrees.DeleteTree | src/alisp/alisp.c:201-210 | removes one owner of every object for every car/cdr path of the tree, and changes nothing that another owner holds |
| LispTrees.IncrefTree | src/alisp/alisp.c:225-234 | adds one owner of every object for every car/cdr path of the tree |
| LispTrees.SetObject | src/alisp/alisp.c:867-901 | the variable has the new value and owns it; the old value is no longer owned |
| LispTrees.ReplaceObject | src/alisp/alisp.c:955-978 | swaps the value of an existing variable and hands the old one to the caller; NULL if there is none |
| LispTrees.SetObjectDirect | src/alisp/alisp.c:827-847 | enters a new variable, which takes over the ownership of its value |
| LispTrees.UnsetObject | src/alisp/alisp.c:903-929 | removes a variable and hands its value to the caller, or nil |
| LispTrees.ShareVariable | src/alisp/alisp.c:3121-3124 | the value of a variable, with an owner of its own |
| LispTrees.CountList | src/alisp/alisp.c:1078-1088 | the number of conses along the cdr spine |
| LispEval.Eval | src/alisp/alisp.c:3117-3137 | a name that is not reported as touched has the binding it had before, whatever is evaluated |
| LispEval.Call | src/alisp/alisp.c:2296-2377 | the same for a call: its parameters are not touched |
| LispEval.RestoreAt | src/alisp/alisp.c:2348-2366 | putting saved bindings back gives every parameter the old binding and leaves all other names alone |
| LispScoping.CallRestoresParameters | src/alisp/alisp.c:2296-2371 | after any call of a user function, nested and recursive ones included, every parameter is bound as it was when the arguments had been evaluated, and as before the call unless an argument assigned it |
| LispScoping.RestoredExactly | src/alisp/alisp.c:2330-2366 | for any parameter list and any body: a parameter gets its binding back if and only if it was unbound, or the body has not unset it and its last occurrence found the old value |
| LispScoping.LostExactly | src/alisp/alisp.c:2330-2366 | no saved value is lost by the two loops if and only if the body keeps all parameters that were bound, and no parameter that was unbound occurs twice |
| LispScoping.TwiceTheSame | src/alisp/alisp.c:2330-2366 | a bound `x` has the first of the two values after a call of a lambda with the parameters `(x x)` |
| LispScoping.DistinctParameters | src/alisp/alisp.c:2330-2366 | for distinct parameters, saving and putting back one by one is what the evaluator of LispEval does |
| LispScoping.MoreFuelEval | src/alisp/alisp.c:3117-3137 | a result does not depend on how much fuel was left over |
| LispScoping.MoreFuelCall | src/alisp/alisp.c:2296-2377 | nor does that of a call |
| LispInterp.Eval | src/alisp/alisp.c:3117-3137 | consumes the one tree it is given, hands back one owned tree, keeps the ledger exact and computes what the evaluator of LispEval says |
| LispInterp.EvalCons | src/alisp/alisp.c:3099-3115 | consumes the one tree it is given, hands back one owned tree, keeps the ledger exact and computes what the evaluator of LispEval says |
| LispInterp.EvalCons1 | src/alisp/alisp.c:3046-3077 | consumes the one tree it is given, hands back one owned tree, keeps the ledger exact and computes what the evaluator of LispEval says |
| LispInterp.First | src/alisp/alisp.c:1109-1119 | the car of the value of its argument: consumes its arguments, hands back one owned tree, keeps the ledger exact and does what LispEval says |
| LispInterp.Rest | src/alisp/alisp.c:1124-1134 | the cdr of the value of its argument: consumes its arguments, hands back one owned tree, keeps the ledger exact and does what LispEval says |
| LispInterp.MakeCons | src/alisp/alisp.c:1760-1776 | a new pair of two values: consumes its arguments, hands back one owned tree, keeps the ledger exact and does what LispEval says |
| LispInterp.MakeList | src/alisp/alisp.c:1781-1812 | a new list of all values, built while its arguments are taken apart: consumes its arguments, hands back one owned tree, keeps the ledger exact and does what LispEval says |
| LispInterp.Quote | src/alisp/alisp.c:1895-1902 | its argument, not evaluated: consumes its arguments, hands back one owned tree, keeps the ledger exact and does what LispEval says |
| LispInterp.And | src/alisp/alisp.c:1907-1926 | the first nil or the last value; the rest is not evaluated: consumes its arguments, hands back one owned tree, keeps the ledger exact and does what LispEval says |
| LispInterp.Or | src/alisp/alisp.c:1931-1950 | the first value that is not nil; the rest is not evaluated: consumes its arguments, hands back one owned tree, keeps the ledger exact and does what LispEval says |
| LispInterp.Not | src/alisp/alisp.c:1955-1968 | t for nil, nil for all else: consumes its arguments, hands back one owned tree, keeps the ledger exact and does what LispEval says |
| LispInterp.Cond | src/alisp/alisp.c:1973-2001 | the clause of the first test that is not nil, or the last test: consumes its arguments, hands back one owned tree, keeps the ledger exact and does what LispEval says |
| LispInterp.If | src/alisp/alisp.c:2006-2026 | one of the two branches: consumes its arguments, hands back one owned tree, keeps the ledger exact and does what LispEval says |
| LispInterp.When | src/alisp/alisp.c:2031-2047 | its body, or the nil of the test: consumes its arguments, hands back one owned tree, keeps the ledger exact and does what LispEval says |
| LispInterp.Unless | src/alisp/alisp.c:2052-2067 | its body, or nil: consumes its arguments, hands back one owned tree, keeps the ledger exact and does what LispEval says |
| LispInterp.While | src/alisp/alisp.c:2072-2092 | its body as long as the test is not nil; each round shares test and body once more: consumes its arguments, hands back one owned tree, keeps the ledger exact and does what LispEval says |
| LispInterp.ProgN | src/alisp/alisp.c:2097-2111 | the value of the last form: consumes its arguments, hands back one owned tree, keeps the ledger exact and does what LispEval says |
| LispInterp.Set | src/alisp/alisp.c:2166-2186 | binds the name that its first argument evaluates to: consumes its arguments, hands back one owned tree, keeps the ledger exact and does what LispEval says |
| LispInterp.Unset | src/alisp/alisp.c:2191-2199 | unbinds a name: consumes its arguments, hands back one owned tree, keeps the ledger exact and does what LispEval says |
| LispInterp.SetQ | src/alisp/alisp.c:2206-2231 | binds names to values, pair after pair: consumes its arguments, hands back one owned tree, keeps the ledger exact and does what LispEval says |
| LispInterp.UnsetQ | src/alisp/alisp.c:2238-2252 | unbinds names; the last value removed: consumes its arguments, hands back one owned tree, keeps the ledger exact and does what LispEval says |
| LispInterp.Defun | src/alisp/alisp.c:2259-2294 | binds a name to a new lambda made of its arguments: consumes its arguments, hands back one owned tree, keeps the ledger exact and does what LispEval says |
| LispInterp.Funcall | src/alisp/alisp.c:3082-3097 | calls the function that its first argument evaluates to: consumes its arguments, hands back one owned tree, keeps the ledger exact and does what LispEval says |
| LispInterp.EvalFunc | src/alisp/alisp.c:2296-2377 | consumes the one tree it is given, hands back one owned tree, keeps the ledger exact and computes what the evaluator of LispEval says, wrong numbers of arguments included |
| LispInterp.BindParams | src/alisp/alisp.c:2330-2344 | binds the parameters one by one and saves what they were bound to; every object stays accounted for |
| LispInterp.RunBody | src/alisp/alisp.c:2346-2352 | runs a body that it shares with the variable holding the function |
| LispInterp.RestoreParams | src/alisp/alisp.c:2348-2366 | gives every parameter its saved value back, down to the very object, and releases the parameter list and the values |
| LispLaws.AtomLaw | src/alisp/alisp.c:3117-3137 | an identifier means its variable, or nil; any other atom itself |
| LispLaws.HeadLaw | src/alisp/alisp.c:3099-3115 | a lambda means itself; a list that does not start with an identifier is nil |
| LispLaws.QuoteLaw | src/alisp/alisp.c:1895-1901 | `quote` gives its argument as it is |
| LispLaws.CarLaw | src/alisp/alisp.c:1109-1119 | `(car x)` changes what x changes, and gives the car of its value, nil for an atom |
| LispLaws.CdrLaw | src/alisp/alisp.c:1124-1134 | `(cdr x)` gives the cdr |
| LispLaws.ConsLaw | src/alisp/alisp.c:1760-1776 | `(cons x y)` evaluates x, then y, and pairs the two values |
| LispLaws.ListLaw | src/alisp/alisp.c:1781-1804 | `list` evaluates from left to right and gives the list of the values |
| LispLaws.NotLaw | src/alisp/alisp.c:1955-1968 | `not` and `null` are t exactly for nil |
| LispLaws.AndLaw | src/alisp/alisp.c:1907-1926 | `and` stops at the first nil, and has the last value it looked at |
| LispLaws.OrLaw | src/alisp/alisp.c:1931-1950 | `or` stops at the first value that is not nil |
| LispLaws.ProgNLaw | src/alisp/alisp.c:2097-2112 | `progn` evaluates all and has the last value, nil without a form |
| LispLaws.IfLaw | src/alisp/alisp.c:2006-2026 | `(if c x ...)` is x if c is not nil, else the progn of the rest |
| LispLaws.WhenLaw | src/alisp/alisp.c:2031-2047 | `when` is the progn of its body if the test is not nil |
| LispLaws.UnlessLaw | src/alisp/alisp.c:2052-2067 | `unless` is that if it is nil |
| LispLaws.CondLaw | src/alisp/alisp.c:1973-2001 | `cond` takes the first clause whose test is not nil; without a body, it has the value of the test |
| LispLaws.WhileLaw | src/alisp/alisp.c:2072-2092 | a loop is its test, and if that is not nil, its body and the same loop again |
| LispLaws.SetLaw | src/alisp/alisp.c:2166-2186 | `set` binds the name that its first argument has for its value, and has the value of the second |
| LispLaws.SetqLaw | src/alisp/alisp.c:2206-2233 | `setq` and `setf` bind one name after the other |
| LispLaws.UnsetLaw | src/alisp/alisp.c:2191-2201 | `unset` removes the binding and gives the name |
| LispLaws.UnsetqLaw | src/alisp/alisp.c:2238-2254 | `unsetq` and `unsetf` remove one binding after the other and give the last value removed |
| LispLaws.DefunLaw | src/alisp/alisp.c:2259-2294 | `defun` binds its name to the lambda, and is nil |
| LispLaws.FuncallLaw | src/alisp/alisp.c:3082-3097 | `(funcall f ...)` is the form with the value of f for its name, nil if that is none |
| LispLaws.CallLaw | src/alisp/alisp.c:2296-2377 | a call evaluates its arguments like `list`, then the body with the parameters bound to them, has the value of the body and puts the parameters back |
| LispLaws.ArityLaw | src/alisp/alisp.c:2309-2314 | with the wrong number of arguments it is nil and evaluates none |
| LispLaws.UndefinedLaw | src/alisp/alisp.c:3069-3077 | a name that is no builtin and not bound to a lambda gives nil |
| LispEquality.AtomsAreInterned | src/alisp/alisp.c:297-345 | while nothing has passed the reuse limit, two live atoms are the same object exactly if they have the same value |
| LispEquality.EqIsEqual | src/alisp/alisp.c:1814-1844 | so `eq` and `equal` agree on any two live objects |
| LispEquality.PartWays | src/alisp/alisp.c:297-345 | that premise is needed: from a fresh instance, a value can be shared past the reuse limit, and the next object asked for with that value is another one; then `eq` fails, and `equal` holds exactly for integers and strings |
| LispEquality.Assoc | src/alisp/alisp.c:2750-2775 | returns the first entry with the key, owned by the caller, and releases everything else |
| LispEquality.Assq | src/alisp/alisp.c:2810-2835 | returns the same entry as `assoc` for every atom and every list |
| LispRoundTrip.ReadPrinted | src/alisp/alisp.c:775-821 | the reader rebuilds what the printer printed - dotted tails, nested nil and t included - and stops right behind it |
| LispRoundTrip.StringReadsBack | src/alisp/alisp.c:1637-1655 | a string is read back from its printed form exactly if it has no backslash |
| LispRoundTrip.AtolOf | src/alisp/alisp.c:803-806 | printing and reading a number is the identity on longs; anything larger saturates |
| LispDump.RunDump | src/alisp/alisp.c:980-1013 | running a dump puts exactly the dumped variables over those that are there |
| LispDump.DumpRestores | src/alisp/alisp.c:980-1013 | evaluating the dump of all variables in a fresh instance gives back the same bindings, in whatever order they were written |
| LispDump.Undumpable | src/alisp/alisp.c:1001-1005 | `(setq x '(lambda))` reaches an environment that cannot be dumped |
| LispLexer.Lexer.Getc | src/alisp/alisp.c:500-506 | the next character of the text, pushed-back ones first |
| LispLexer.Lexer.Ungetc | src/alisp/alisp.c:508-512 | puts a character in front of the text again |
| LispLexer.Lexer.Append | src/alisp/alisp.c:531-543 | the token and its terminator always fit into the buffer |
| LispLexer.Lexer.ScanNumber | src/alisp/alisp.c:586-622 | reads exactly the text of the number, which tells integers from floats |
| LispLexer.Lexer.ScanId | src/alisp/alisp.c:624-650 | reads the longest identifier |
| LispLexer.Lexer.ScanString | src/alisp/alisp.c:652-681 | reads a string literal with its escapes, up to the closing quote or the end of the input |
| LispLexer.Lexer.GetToken | src/alisp/alisp.c:545-687 | reads the token that the grammar prescribes, and never leaves more than two characters pushed back |
| LispReader.ParseObject | src/alisp/alisp.c:775-821 | builds the form that the text denotes out of new owned objects; malformed text leaves no object behind |
| LispReader.ParseForm | src/alisp/alisp.c:693-740 | the same for the elements of a list, while its conses are still being linked |
| LispReader.ParseDotted | src/alisp/alisp.c:702-716 | the same for a dotted tail, with all three ways in which it can be wrong |
| LispReader.QuoteObject | src/alisp/alisp.c:742-768 | `'x` becomes `(quote x)`, all of it owned once |
| LispSurface.CommentLaw | src/alisp/alisp.c:560-566 | a comment line in front of a text changes nothing |
| LispSurface.BlankLaw | src/alisp/alisp.c:553-558 | nor does white space |
| LispSurface.CharacterLaw | src/alisp/alisp.c:568-572 | `?c` is the number of the character |
| LispSurface.QuoteLaw | src/alisp/alisp.c:770-773 | a quote in front of a form quotes that form |
| LispSurface.NameLaw | src/alisp/alisp.c:624-650 | letters, digits and the listed signs are one identifier, up to the first other character; `t` and `nil` are the constants |
| LispSurface.FloatLaw | src/alisp/alisp.c:600-609 | digits with a fraction are a float, whatever follows |
| LispSurface.DotLaw | src/alisp/alisp.c:600-612 | digits with a lonely dot are an integer, and the dot is not read |
| LispSurface.EscapeLaw | src/alisp/alisp.c:659-671 | an escaped newline vanishes; a character without a meaning as an escape stands for itself |
| LispPrinter.PrincString | src/alisp/alisp.c:1637-1655 | prints a string as the textual form prescribes |
| LispPrinter.PrincCons | src/alisp/alisp.c:1657-1670 | prints the elements of a list, dotted tail included |
| LispPrinter.PrincObject | src/alisp/alisp.c:1672-1701 | prints what the object unfolds to |
| LispPrinter.DumpObjects | src/alisp/alisp.c:980-1013 | writes one line for every variable, lambdas as `defun`, all else as quoted `setq` |
| LispTop.RunForms | src/alisp/alisp.c:3228-3251 | after every top-level form, the variables are the only owners of objects |
| LispTop.AlsaLisp | src/alisp/alisp.c:3199-3259 | a whole run ends with the bindings that the text denotes, and with an exact ledger |
| LispTop.FreeObjects | src/alisp/alisp.c:258-295 | giving up the variables leaves nothing that is still referenced, and every object goes back to malloc |
| AtomicCounters.AtomicWrite.Begin | include/iatomic.h:141-145 | takes the writer and all its readers from any state of the protocol to the one after the step that begins a write |
| AtomicCounters.AtomicWrite.End | include/iatomic.h:147-151 | the same for the step that ends a write |
| AtomicCounters.AtomicRead.Begin | include/iatomic.h:158-162 | the same for the step in which a reader starts; no other reader notices |
| AtomicCounters.AtomicRead.Ok | include/iatomic.h:164-168 | in every state that can be reached: accepts if and only if the number of writes begun since is a multiple of 2^32, and then, if there were fewer than 2^32, everything the reader has seen was left by one write |
| AtomicCounters.RunKeepsInvariant | include/iatomic.h:141-168 | over every interleaving of the writer and any readers: at most one write is in progress, the counters count modulo 2^32, and what a reader has seen is what its last known write left, unless another one has begun |
| AtomicCounters.AcceptedExactly | include/iatomic.h:164-168 | a read is accepted if and only if the number of writes begun since is a multiple of 2^32 |
| AtomicCounters.AcceptedReadsAreUntorn | include/iatomic.h:141-168 | an accepted read that took fewer than 2^32 writes saw all fields as one and the same completed write left them |
| AtomicCounters.UntornExactly | include/iatomic.h:141-168 | for every bound: all accepted reads with at most so many writes inside are untorn, if and only if the bound is below 2^32 |
| AtomicCounters.CountersStayClose | include/iatomic.h:135-151 | `begin` is `end` or one more, in every reachable state |
| AtomicCounters.TornAfterWrapAround | include/iatomic.h:141-168 | the bound is sharp: after 2^32 writes inside one read, a mixture that no write left is accepted |
| RingList.AddBetween | include/list.h:39-47 | inserting between two neighbours of a well-formed ring inserts into its sequence of entries there |
| RingList.Add | include/list.h:57-60 | insertion behind any node; behind the head, the entry becomes the first |
| RingList.AddTail | include/list.h:70-73 | insertion before any node; before the head, the entry becomes the last |
| RingList.Del | include/list.h:94-97 | the ring without exactly that entry, whose own pointers stay |
| RingList.DelInit | include/list.h:103-107 | the same, and the entry becomes an empty list |
| RingList.Empty | include/list.h:113-116 | tells whether there are no entries |
| RingList.Splice | include/list.h:123-137 | the entries of the first list followed by those of the second one |
| RingList.DeleteEach | include/list.h:153-154 | safe iteration visits every entry once and in order while entries are deleted, and keeps the others |
| RingList.Contents | include/list.h:144-145 | the pointers determine the entries: a ring has one sequence of contents |
| ConfInput.Input.GetChar | src/conf.c:578-611 | the next character, the pushed-back one first |
| ConfInput.Input.UngetChar | src/conf.c:613-618 | at most one character is ever pushed back |
| ConfInput.Input.UngetNonWhite | src/conf.c:613-618 | the input is again where the character, or the error, was found |
| ConfInput.Input.GetNonWhite | src/conf.c:622-694 | skips white space and comments and nothing else, and tells the end and a file that cannot be included |
| ConfInput.Input.GetQuotedChar | src/conf.c:696-731 | one escape, octal ones of up to three digits included |
| ConfInput.Input.GetFreeString | src/conf.c:785-842 | the longest bare word, and the input stands right behind it |
| ConfInput.Input.GetDelimString | src/conf.c:844-875 | the characters up to the delimiter, escapes resolved, escaped newlines dropped |
| ConfInput.Input.GetString | src/conf.c:878-907 | a bare or a quoted string, or the reason why there is none |
| ConfInput.LocalString.Add | src/conf.c:754-773 | the buffer always has room for the character |
| ConfNodes.FindChild | src/conf.c:948-965 | finds the child of that id |
| ConfNodes.MakeAdd | src/conf.c:933-946 | one more child, and nothing else changes; every node stays in exactly its parent's list |
| ConfNodes.DeleteChild | src/conf.c:1833-1863 | the children without that one; no node outside its subtree goes, and none but the parent changes |
| ConfNodes.Lift | src/conf.c:1133-1275 | whatever happens inside the subtree of a child happens inside the subtree of its parent: the siblings share no node with it |
| ConfReader.ParseValue | src/conf.c:967-1041 | stores the scalar in place, keeping the type of an existing node, or reports that the types differ |
| ConfReader.ParseArrayDef | src/conf.c:1046-1114 | numbers the element; an error inside its brackets is forgotten if they close |
| ConfReader.ParseElement | src/conf.c:1065-1102 | an element in brackets becomes a new node, which is deleted if they do not match |
| ConfReader.ParseArrayDefs | src/conf.c:1116-1131 | one element after the other up to the closing bracket |
| ConfReader.ParseDef | src/conf.c:1133-1275 | what one definition makes of the nodes, and where it ends, in all modes, on success and on error; nodes outside the compound are left alone, and the heap keeps its shape |
| ConfReader.ParseComponent | src/conf.c:1165-1198 | goes down one component of a key, over an existing compound, a new one, or one that replaces what is there |
| ConfReader.ParseBody | src/conf.c:1205-1222 | chooses the node that the value goes to |
| ConfReader.ParseBrackets | src/conf.c:1223-1256 | a compound or an array as the value, whose node is deleted if it is not closed |
| ConfReader.ParseDefs | src/conf.c:1277-1292 | the nodes and the position after all definitions up to a closing brace or the end |
| ConfReader.Load | src/conf.c:1656-1715 | turns the tree of nodes into the one that the text denotes, or reports the error; text left over is an error |
| ConfParse.ParseDef | src/conf.c:1133-1275 | a successful definition consumes text, and one that is skipped changes nothing |
| ConfParse.ParseArrayDef | src/conf.c:1046-1114 | the same for an array element |
| ConfModes.OverrideLaw | src/conf.c:1154-1156 | `!key ...` is the definition without prefix on a tree without the key, unless nothing follows the equal sign |
| ConfModes.NoPrefixLaw | src/conf.c:1157-1160 | without a prefix, a definition is as with `!` if overriding is on, and as with `+` otherwise |
| ConfModes.MissingLaw | src/conf.c:1191-1195 | for a key that is missing, `-` fails and leaves the tree alone, and `+`, `?` and `!` are the same as no prefix |
| ConfModes.MergeLaw | src/conf.c:1145-1150 | for a key that is there, `-` is the same as `+` |
| ConfModes.PlusDotted | src/conf.c:1177-1187 | `+key.more` goes on inside the compound, which becomes joined; anything else is an error |
| ConfModes.PlusBraces | src/conf.c:1223-1252 | `+key { ... }` reads the body into the compound that is there |
| ConfModes.OverrideReplaces | src/conf.c:1133-1275 | loading `!k1. ... kn value`, with a scalar or a compound, leaves nothing but the value below k1, alone on its way, and all other children as they were |
| ConfModes.FlagReplaces | src/conf.c:1133-1275 | the same without a prefix where definitions override |
| ConfModes.PlusAssigns | src/conf.c:1133-1275 | loading `+k1. ... kn value` assigns, so that all other keys keep their values |
| ConfModes.PlusKeepsMembers | src/conf.c:1223-1252 | loading `+key { ... }` adds the new members behind the old ones |
| ConfModes.MinusFile | src/conf.c:1148-1150 | a file that starts with `-key` fails and changes nothing if there is no such key, and is read as with `+` otherwise |
| ConfSyntax.CommentLaw | src/conf.c:622-676 | a comment line in front of a file changes nothing about its reading |
| ConfSyntax.BlankLaw | src/conf.c:678-694 | nor does white space |
| ConfSyntax.WordLaw | src/conf.c:785-842 | a word goes up to the first of the listed characters, an id also up to a dot |
| ConfSyntax.QuotesLaw | src/conf.c:844-875 | what stands between quotes of either kind is read as it is |
| ConfSyntax.OctalLaw | src/conf.c:696-731 | an escape of three octal digits is the byte with that number; only the one for a newline vanishes |
| ConfSyntax.ShortOctalLaw | src/conf.c:713-731 | one or two digits do, if no other follows |
| ConfSyntax.EscapeLaw | src/conf.c:699-712 | the escapes with a meaning; any other character stands for itself |
| ConfSyntax.EqualLaw | src/conf.c:1204-1208 | an equal sign between key and value changes nothing, unless a dot follows it |
| ConfSyntax.SeparatorLaw | src/conf.c:1264-1271 | a comma or semicolon behind a value belongs to the definition |
| ConfSyntax.BasesLaw | src/conf.c:503-516 | hexadecimal and octal integers have their value |
| ConfSyntax.RealsLaw | src/conf.c:967-1041 | digits with a fraction, an exponent or both are a real |
| ConfSyntax.WordsLaw | src/conf.c:967-1041 | digits that go on with another letter are a string |
| ConfSyntax.ScalarsLaw | src/conf.c:967-1041 | an integer has the smallest type that holds it; a quoted value is a string |
| ConfSyntax.ArrayLaw | src/conf.c:1116-1131 | `key [ v0 v1 ... ]` is a compound of the elements with their numbers for ids |
| ConfRoundTrip.LoadSaved | src/conf.c:1294-1462 | save then load is the identity on trees: child order, node types and join flags |
| ConfRoundTrip.ChildrenLoad | src/conf.c:1428-1462 | in any context of joined compounds, reading the saved children adds exactly these children |
| ConfRoundTrip.ReadString | src/conf.c:1294-1376 | a printed string or id is read back as one string, up to its end |
| ConfStrings.StringReadsBack | src/conf.c:1294-1376 | a printed string or id is read back if and only if it is readable: no backslash, newline or unprintable character between quotes, no bracket, hash sign, backslash or leading `<` without; this is what the trees that survive are made of |
| ConfStrings.NeverReadBack | src/conf.c:844-875 | once reading runs ahead or meets a bad character, it never catches up with the string that was printed |
| ConfStrings.PrintedAsItIs | src/conf.c:1294-1376 | a string is printed without quotes if and only if nothing in it would end or change a word |
| ConfStrings.SavedExample | src/conf.c:1382-1465 | a compound is written in braces with its children a tab further in, a joined one with dots |
| ConfRoundTrip.ReadInt | src/conf.c:503-516 | a printed integer is read back; larger magnitudes saturate |
| ConfSkip.SkipDef | src/conf.c:1133-1275 | any text is skipped to exactly the position where a reading of it ends, with the same error if there is one, unless the reading runs into what is in the tree |
| ConfSkip.SkipIsTransparent | src/conf.c:1133-1275 | if the text is well-formed, `?key` for an existing key leaves the whole tree alone and stops exactly where a reading of the text stops |
| ConfSkip.SkipExactly | src/conf.c:1133-1275 | for any text after `?key`: the tree stays as it is, unless the key goes on and the brackets around the value do not match, which depends on the text only; then the key is deleted |
| ConfSkip.LooseIsUnclosed | src/conf.c:1249-1256 | a skipped definition fails for the brackets around its value if and only if the text after the opening one, skipped over, does not go on with the closing one |
| ConfSkip.SkippingDeletes | src/conf.c:1171-1251 | that happens: `?a.b {` deletes an existing `a` |
| ConfSkip.SwallowedError | src/conf.c:1104-1114 | that premise is needed: an error from the tree, swallowed inside an array element, makes reading stop where skipping fails |
| ConfUnique.LoadKeepsIdsUnique | src/conf.c:1133-1292 | reading any text into any tree keeps ids unique among siblings at all depths, if no array element is given an id that is taken |
| ConfUnique.PlainTextKeepsIdsUnique | src/conf.c:1133-1292 | reading any text without `[` into any tree keeps ids unique among siblings at all depths |
| ConfUnique.TwiceTheSameId | src/conf.c:1046-1131 | `a [x] a [y]` gives `a` two children with the id 0 |
| ConfUnique.ElementExactly | src/conf.c:1046-1131 | an array element that is read leaves ids unique if and only if its own was free |
| ConfAssign.LoadAssigns | src/conf.c:1133-1275 | loading one line `k1. ... kn value` assigns the value to the key, or fails if it cannot be assigned |
| ConfAssign.AssignedIsFound | src/conf.c:2740-2760 | afterwards the key has that value |
| ConfAssign.OtherKeysUnchanged | src/conf.c:1133-1275 | every key that is not on the way there keeps its value, or its absence |
| ConfAssign.AssignsExactly | src/conf.c:995-1035 | assigning fails if and only if something on the way is no compound or the key has a value of another kind; a value that is there keeps its type |
| ConfAssign.WayIsJoined | src/conf.c:1171-1198 | on the way there, only missing compounds are made, and all are joined |
| ConfAssign.AssignKeepsIdsUnique | src/conf.c:948-965 | ids stay unique among siblings at all depths |
| ConfSearch.SearchKey | src/conf.c:2740-2760 | finds the node that the components of the dotted key lead to |
| ConfSearch.SplitJoin | src/conf.c:2740-2760 | a key joined from components without dots is taken apart into these |
| ConfSearch.SearchAlias | src/conf.c:2833-2876 | makes at most 1001 rounds on every tree |
| ConfSearch.ResolveIsChainEnd | src/conf.c:2833-2876 | an alias resolves to the end of its chain of strings - a node that is no string or names nothing - if and only if that end is near enough |
| ConfSearch.CyclesAreErrors | src/conf.c:2854-2864 | a chain that comes back to where it has been is an error |
| ConfAlias.ResolveFollowsChildren | src/conf.c:2833-2876 | an alias is found to be a node if and only if a short enough chain of children leads there, the first one in the base and the others at the top level or else in the base |
| ConfAlias.BaseThenTop | src/conf.c:2846-2854 | with a base, a key missing there is not found even if the top level has it, and what a string names is taken from the top level first |
| ConfAlias.TopOnly | src/conf.c:2846-2854 | without a base, only the top level counts |
| ConfHeap.Add | src/conf.c:1777-1791 | appends the child exactly if it has an id, no parent, and no sibling of that id |
| ConfHeap.AddKeepsShape | src/conf.c:1777-1791 | adding a node that is not above its new parent keeps every node in exactly its parent's list, and nothing below itself |
| ConfHeap.Remove | src/conf.c:1806-1813 | takes the node out of its parent's list |
| ConfHeap.RemoveKeepsShape | src/conf.c:1806-1813 | which keeps the shape |
| ConfDelete.Delete | src/conf.c:1833-1863 | releases the nodes of the subtree, children before parents, and unlinks it from its parent; no other node changes |
| ConfHeap.OrderNoDup | src/conf.c:1833-1863 | no node of a subtree is released twice |
| ConfDelete.DeleteKeepsShape | src/conf.c:1833-1863 | what remains keeps the shape |
| ConfSubstitute.HandOver | src/conf.c:1491-1506 | a non-empty list of children is handed over as it is |
| ConfSubstitute.Substitute | src/conf.c:1491-1506 | the destination ends up with exactly the source's children if and only if there are any; after an empty source it is no list without the freed head |
| ConfSubstitute.CopyHead | src/conf.c:1503-1507 | a destination that was no compound ends up with a list that leads back to the freed head, however many children there are |
| ConfTakeOver.Substitute | src/conf.c:1485-1509 | the destination has the id, the type and the value of the source, and its children if it was able to take them over, who then have it for their parent; the source is gone, and so are the former children if the source is a scalar |
| ConfTakeOver.SubstituteKeepsForest | src/conf.c:1485-1509 | whatever may be left behind, every node is in the children of exactly its parent if and only if the destination had no children left and, for a compound as the source, is a compound itself and the source has children |
| ConfTakeOver.SubstituteKeepsRank | src/conf.c:1485-1509 | and nothing gets below itself |
| ConfTakeOver.TakesTree | src/conf.c:1485-1509 | if the children can be taken over, the destination now holds the tree that the source held, children in order |
| ConfTakeOver.ScalarKeepsForest | src/conf.c:1497-1509 | a scalar can take the place of any node: what it replaces is deleted, and the shape is kept |
| ConfRings.LinkChild | src/conf.c:1788-1790 | the ring of every compound is that of its children, before an addition and after |
| ConfRings.UnlinkChild | src/conf.c:1809-1811 | and before a removal and after |
| ConfRings.Substitute | src/conf.c:1485-1509 | and after a substitution by a compound exactly if the destination is a compound and the source has children |
| ConfRings.ChildrenAre | src/conf.c:434-455 | no other sequence of nodes is in the ring of a compound |
| ConfExpand.Walk | src/conf.c:3956-4170 | builds from new nodes the tree that copying, or substituting the references, yields; the source is not modified |
| ConfExpand.Attach | src/conf.c:3978-3982 | adding the copy of a child to the copy of its parent completes one more child |
| ConfExpand.ExpandAt | src/conf.c:4086-4170 | expansion is substitution: at every leaf stands the value of the reference that the source has there, nothing if it is unbound, and the source's own leaf otherwise |
| ConfExpand.ExpandWellFormed | src/conf.c:4086-4170 | ids stay unique among siblings at all depths |
| ConfExpand.ExpandNothing | src/conf.c:4086-4170 | without references and `@args`, expanding is copying |
| ConfArgs.NamedApplies | src/conf.c:4521-4678 | `n0=v0,n1=v1,...` gives the parameters these values one after the other, whichever way the values are written |
| ConfArgs.PositionalApplies | src/conf.c:4521-4678 | `v0,v1,...` gives the values to the parameters in the order of `@args` |
| ConfArgs.PositionalIsNamed | src/conf.c:4521-4678 | positional and named arguments, in any order, mean the same: each value replaces the default, each parameter occurs once, all others keep what they had |
| ConfArgs.ParseValueText | src/conf.c:4471-4518 | a value is read whichever way it is written: as it is, between quotes of either kind with commas, blanks and equal signs, or with escapes |
| ConfArgs.ParseNamed | src/conf.c:4471-4518 | the same behind a name |
| ConfArgs.BlanksBefore | src/conf.c:4569-4583 | blanks in front of a value change nothing; with blanks in front of a name, another name is taken |
| ConfArgs.NamelessLaw | src/conf.c:4482-4518 | an equal sign without a name changes nothing |
| ConfArgs.EmptyValues | src/conf.c:4471-4518 | no value in front of a comma is the empty one |
| ConfArgs.WrongArguments | src/conf.c:4471-4518 | empty arguments, missing values, open quotes and text behind quotes are errors |
| ConfArgs.NoParameter | src/conf.c:4584-4652 | so are arguments for what is no parameter, or one of no known type |
| ConfArgs.AroundBraces | src/conf.c:4525-4546 | blanks around braces do not count, and no arguments change nothing |
| ConfArgs.OpenBraces | src/conf.c:4544-4546 | braces that are not closed are an error |
| ConfArgs.TypedLaw | src/conf.c:4602-4652 | the node that a value becomes, by the declared type: out of range is an error for an integer and saturates for a 64-bit one |
| ConfBlock.DefaultsLoaded | src/conf.c:4297-4333 | every parameter gets the default it is declared with, once, if and only if the definitions consist of types and defaults |
| ConfBlock.DefaultTaken | src/conf.c:4311-4326 | a default for what has a value already is an error |
| ConfBlock.BlocksWithoutParameters | src/conf.c:4703-4722 | a block without `@args` is what it is and takes no arguments |
| ConfBlock.ArgumentsReachLeaves | src/conf.c:4691-4748 | after expanding a block, every leaf `$name` is the argument's value, or the default, or nothing, with arguments by position or by name; expanding succeeds if and only if the definitions are well-formed and all values have their types |
| ConfBlock.DefaultsReachLeaves | src/conf.c:4691-4748 | the same without an argument string: the default, or nothing |
| ConfBraces.BracedApplies | src/conf.c:4530-4567 | arguments in braces are read like a file, each replacing what the parameter had, and are accepted if and only if all ids are declared |
| ConfBraces.BracedIsNamed | src/conf.c:321-341 | `{n0 v0 n1 v1 ...}` means the same as `n0=v0,n1=v1,...` exactly for the parameters whose value looks like the type they declare |
| ConfBraces.LooksByKind | src/conf.c:4530-4567 | by kind: any text but a number looks like a string, a number of its own range like an integer or a real |
| ConfBraces.CardExample | src/conf.c:321-341 | the documented form `{CARD 0 DEV 1}`: where CARD is declared as a string, it gets the integer zero, and the text `0` from `CARD=0,DEV=1` |
| ConfArgs.Applied | src/conf.c:4587-4668 | one argument sets one parameter, and fails exactly if the value does not fit the declared type |
| ConfFolds.Concat | src/confmisc.c:395-434 | joins the texts of the children numbered 0, 1, ... up to the first missing number, each once; the passes end |
| ConfFolds.FoldIntegers | src/confmisc.c:452-511 | adds up the integers numbered 0, 1, ... up to the first missing number, each once; multiplication yields nothing but zero |
| ConfFolds.ConcatOfNumbered | src/confmisc.c:395-434 | children with the numbers 0, 1, ... in any order: fails exactly if one has no text, else joins the texts in the order of the numbers; strings are their own texts, integers read back |
| ConfFolds.ConcatOfStrings | src/confmisc.c:395-434 | so strings s0, s1, ... give s0 + s1 + ... |
| ConfFolds.FoldOfNumbered | src/confmisc.c:475-504 | adding up fails exactly if one is not an integer, else gives the sum |
| ConfFolds.NumberOfText | src/conf.c:518-532 | the number of an id is the one that its decimal text denotes |
| ConfFolds.ConcatOrderIrrelevant | src/confmisc.c:395-434 | on two orders of the same children with distinct numbers, concatenation gives the same text or fails on both |
| ConfFolds.FoldOrderIrrelevant | src/confmisc.c:475-504 | and so does adding up, with the same sum |

## Left out

Of the Lisp interpreter:

- Programs on which the C code has no balanced, defined behaviour have no outcome in
  `LispEval` (`Stuck`): `defun` of something that is not a name, lambdas whose parameters
  are not a proper list of distinct names, dotted argument lists, arguments that rebind
  the function being called, bodies that unset a parameter whose old value has to be
  restored, and the builtins that are not modelled. What becomes of the bindings when
  parameters are not distinct or are unset is in `LispScoping.RestoredExactly`.
- Fuel bounds the nesting of applications and the rounds of loops, since programs may
  diverge; `LispScoping.MoreFuelEval` shows that it does not influence results.
- Objects are entries of two maps from addresses to values and counts instead of C
  structures, and the used and free lists are sequences; the rings are in `RingList`.
- The variables are one map instead of sixteen hash chains. The order in which a dump
  lists them is a parameter, and nothing depends on it.
- LispMemory.Instance.IncrefObject: counts are unbounded; the C code exits when one reaches
  2^28 - 1.
- LispInterp.BindParams: lambdas with distinct parameters, see above.
- LispInterp.RestoreParams: lambdas with distinct parameters that the body does not unset, see
  above.
- Some builtins obtain or release their objects in a slightly different order than the C
  code, which only changes which addresses are recycled. When a list cannot be parsed, the
  C code stores a NULL into the list before it deletes it.
- Arithmetic, comparison, string, formatting and include builtins, `prog1`, `prog2`,
  `nth`, `rassoc`, `rassq`, `eval`, floats, raw pointers, and everything in
  `src/alisp/alisp_snd.c`.
- LispEquality.Assoc: from the point where the arguments have been evaluated, and for keys
  that are atoms, which is where `assoc` and `assq` agree.
- LispEquality.Assq: the same.
- NUL characters, and the control characters that the lexer would confuse with its own
  token codes.
- Running out of memory, messages, line and column numbers.

Of the configuration tree:

- Files named by `<...>` can never be opened here, so that an inclusion is always an error.
- The loop of `parse_def` over the components of a key is a recursion. When brackets do
  not match in skipped text, the code tests a pointer that may never have been set
  (`src/conf.c:1249-1251`); here it is NULL then.
- The children of a node are a sequence; `ConfRings` ties it to the rings of `RingList`.
- ConfSkip.SkipExactly: the pointer just mentioned is NULL.
- Numbers do not start with blanks, arguments do not contain NUL characters, and parameter
  names have at most 255 characters (`parse_args` asserts that, `src/conf.c:4569-4583`).
- ConfRoundTrip.LoadSaved: covers trees with unique sibling ids, no empty joined compound,
  no reals and pointers, integers in the node type that reading gives them, and strings and
  ids that the lexer can take back (no backslash, newline or other control characters; bare
  ones without brackets and `#`, not starting with `<`; bare ids not starting with a mode
  character).
- Reals are kept as text. Hexadecimal, infinite, overflowing and not-a-number forms are
  not recognised, and `%-16g` is not modelled.
- ConfSearch.SearchAlias: keys of one component on the whole way, searched below a compound,
  and a base that names a compound.
- ConfSearch.ResolveIsChainEnd: keys of one component on the whole way.
- ConfSearch.CyclesAreErrors: keys of one component on the whole way.
- ConfArgs.Applied: parameters have names without dots.
- ConfArgs.NamedApplies: parameters have names without dots.
- ConfArgs.PositionalApplies: parameters have names without dots.
- Hooks, `@func` evaluation, pointers, `snd_config_update`, definitions in other files.
- ConfBlock.ArgumentsReachLeaves: `$` references to single parameters, and argument strings
  that are no blocks in braces; the evaluation of functions is left out.
- ConfBlock.DefaultsReachLeaves: the same references; functions are not evaluated.
- ConfBraces.BracedIsNamed: names and values that are single words.
- ConfTakeOver.Substitute: the children of the destination are any at all if it cannot take
  over those of the source; its list then leads to the freed node (`ConfRings.Substitute`).
- ConfArgs.PositionalIsNamed: names without dots.
- ConfArgs.ParseValueText: that the escapes of a string with other characters than these do
  not give it back is shown for files only (`ConfStrings.StringReadsBack`).
- ConfFolds.FoldIntegers: the accumulator does not overflow.
- NULL strings and ids, running out of memory, messages.

Of the counters: memory is sequentially consistent, so the barriers do nothing.
