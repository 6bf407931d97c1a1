# plan9_webasm: a verified model

This project models the hardest parts of the kernel and of the C libraries of the repository, and proves what they are
for. Each module stands for one source file or for one aspect of it:

- **Multi-precision arithmetic** (`Digits`, `MpVec`, `MpInts`, `MpShift`, `MpDiv`, `MpMul`, `MpModular`, `MpGcd`,
  `Numerals`, `MpText`, `MpParse`). Numbers are objects that own arrays of 32-bit digits and are overwritten in place.
  Every routine is proved against the integer it computes, for all lengths, all signs and all ways in which results and
  operands may be the same object: Knuth's Algorithm D, Karatsuba's recursion, the binary extended gcd, powers with lazy
  reduction, printing and reading.
- **Public-key routines** (`NumberTheory`, `Rsa`, `Signatures`): the same objects, up to Fermat's little theorem and
  Garner's recombination.
- **Regular expressions** (`RegProg`, `RegExec`, `RegLang`, `RegCode`, `RegParse`, `RegAccept`, `RegOptimize`, `RegComp`,
  `RegLex`, `RegText`, `RegPattern`, `RegRoom`): the compiler with its stacks and patched links, and the thread-list simulator, connected by
  the set of spans that an expression matches. `RegText` says how expressions are written, `RegRoom` how long the
  simulator's lists get.
- **The pool allocator** (`PoolTree`, `PoolDelete`, `PoolUnlink`, `PoolInsert`, `PoolCells`, `PoolAlloc`). Memory is a
  sequence of headers by address, in which the pointers of the tree and of the rings are changed one by one, as in C. The
  invariant says what the pointers spell out, and how blocks tile the arenas.
- **Kernel concurrency** (`QLocks`, `QueueWait`, `MntMux`): step systems, in which any number of processes take steps in
  any order. Every theorem is about every state of every run.
- **Data behind it** (`QLockList`, `QueueData`, `MntTags`): the linked list of a lock's waiters, the bytes of a queue and the
  bitmap of tags, as objects; `QueueOrder` has the order of the bytes over whole runs.
- **Inverses** (`Idea`, `IdeaKeys`, `IdeaCipher`, `IdeaCbc`; `Utf`, `Quote`, `Tokenize`): IDEA with cipher block chaining,
  and quoting against tokenizing.

`CTypes` and `Options` hold small shared types.

## How to read it

Imperative C is imperative Dafny: objects with fields, arrays changed in place, and loops with invariants. Where a C
function is long, its parts are methods of their own, named for what they do; a row below names the whole. A routine's
contract gives its result as a value or as a specification function, and lemmas say what that function is worth:
`Rsa.rsadecrypt` computes `Decrypt`, and `Rsa.DecryptionCorrect` says when that is right.

## What the code does, where one might expect otherwise

- `mpdiv` never resets a quotient's sign to plus; and with the quotient stored over the dividend the remainder takes the
  new sign. Both are in its contract.
- `mpmod` returns the modulus itself for a negative multiple of it, unless the remainder overwrites the dividend, where
  the result is 0: for this reason `rsadecrypt` is exact for all odd primes, in either order. With the remainder
  overwriting the modulus a negative dividend is not corrected at all.
- `mpcmp` is wrong on a plus zero and a minus zero, and on nothing else.
- `mpexp` gives 1 for e = 0 even modulo 1, so a key with 2 as one of its primes, which `rsafill` accepts, fails on some message.
- `mpvecdigmuladd` overwrites the digit above, so its callers need it to be zero.
- A coalescing read drops empty blocks without waking a writer that waits behind them. `QueueWait.WriterForgotten` is
  such a run, and `QueueWait.WritersSafeExactly` says that this is the only way to forget a writer.
- `qread` copies between two critical sections: a `qget`, `qconsume` or `qdiscard` in between overtakes it, and after a `qclose` in
  between it puts the rest of a block back on the closed queue. `QueueOrder` has such runs, and says that these are the
  only ways.
- A process woken to read for the others that is interrupted and then cannot send its `Tflush` returns without a call of
  `mntgate`, since `m->rip` is not it; the others sleep on until somebody new comes (`MntMux.RoleLost`).
- `qdiscard` wakes a writer below the limit, all other readers below half of it.
- The first-character skip of a program that begins with a line start is never used, as its first character is 0.
- Of stacked postfix operators the tighter is applied first, in whatever order they stand: `a+?` becomes (a?)+. The spans
  are the same, but the loop may take nothing (`RegPattern.StackedLoop`).
- The simulator stops a thread at a NOP; programs that `optimize` has seen have no link to one.
- `sbrk` failing leaves `arenasize` raised.

## Model

| member | source | states |
|---|---|---|
| `MpVec.mpvecadd` | sys/src/libmp/mpvecadd.c:6-35 | The digits written, with the last carry, are the sum of the two vectors; the rest of the array keeps its digits, and the sum may overwrite an operand. |
| `MpVec.mpvecsub` | sys/src/libmp/mpvecsub.c:6-34 | When nothing is borrowed from above, the digits written are the difference; the result may overwrite an operand. |
| `MpVec.mpveccmp` | sys/src/libmp/mpveccmp.c:5-27 | The sign of the result is the sign of the difference of the two numbers, leading zeros or not. |
| `MpVec.mpdigmul` | sys/src/libmp/mpvecdigmuladd.c:8-39 | The two-digit product of two digits is exact: the three carries counted from half-digit products lose nothing. |
| `MpVec.mpvecdigmuladd` | sys/src/libmp/mpvecdigmuladd.c:42-67 | p[..n] plus m times b, with the digit p[n] overwritten by the carry, not added to. |
| `MpVec.mpvecdigmulsub` | sys/src/libmp/mpvecdigmuladd.c:70-103 | p minus m times b modulo one more digit, and -1 exactly when the true difference is negative. |
| `MpInts.MpInt.constructor` | sys/src/libmp/mpaux.c:52-74 | A zero of at least 33 zero digits. |
| `MpInts.mpbits` | sys/src/libmp/mpaux.c:77-96 | There are enough digits; the new ones are zero and the magnitude is kept, in the old buffer or a new one. |
| `MpInts.mpnorm` | sys/src/libmp/mpaux.c:110-121 | The magnitude is kept, no leading digit is zero, and a zero loses its minus sign. |
| `MpInts.mpassign` | sys/src/libmp/mpaux.c:135-142 | The value, the sign and the number of digits are copied, minus zero included; n may be o. |
| `MpInts.mpcopy` | sys/src/libmp/mpaux.c:123-133 | A new number of the same value and sign. |
| `MpInts.mpmagcmp` | sys/src/libmp/mpcmp.c:6-16 | The sign of the result is the sign of the difference of the magnitudes. |
| `MpInts.mpcmp` | sys/src/libmp/mpcmp.c:19-28 | The comparison is right if and only if it is not that of a plus and a minus zero. |
| `MpInts.mpmagadd` | sys/src/libmp/mpadd.c:6-35 | The sum of the magnitudes, also when the result is one of the operands. |
| `MpInts.mpadd` | sys/src/libmp/mpadd.c:38-54 | The sum of the integers, for all signs and all sharing of objects. |
| `MpInts.mpmagsub` | sys/src/libmp/mpsub.c:6-33 | The difference of the magnitudes as a signed integer. |
| `MpInts.mpsub` | sys/src/libmp/mpsub.c:36-52 | The difference of the integers, for all signs and all sharing of objects. |
| `MpShift.mpleft` | sys/src/libmp/mpleft.c:6-52 | The magnitude times two to the shift, or divided by it for a negative one, in place or not. |
| `MpShift.mpright` | sys/src/libmp/mpright.c:6-54 | The magnitude divided by two to the shift, rounded down, in place or not; when a zero gets its plus sign and a zero lowest digit. |
| `MpDiv.mpdigdiv` | sys/src/libmp/mpdigdiv.c:8-43 | Two digits divided by one, or the largest digit when the quotient does not fit. |
| `MpDiv.TrialNotBelow` | sys/src/libmp/mpdiv.c:66-67 | Dividing leading digits never gives less than the true quotient digit. |
| `MpDiv.TrialNotFarAbove` | sys/src/libmp/mpdiv.c:69-77 | A trial digit that passes the three-digit test is at most one too large. |
| `MpDiv.TrialDigit` | sys/src/libmp/mpdiv.c:66-77 | Steps D3 and D3a: for a divisor of any length the trial digit is the true one or one more. |
| `MpDiv.AddedBack` | sys/src/libmp/mpdiv.c:83-87 | Step D6: adding the divisor back once cancels the borrow. |
| `MpDiv.DivideStep` | sys/src/libmp/mpdiv.c:66-95 | One turn of the digit loop: the digit is the true quotient digit and the window becomes the remainder, below the divisor. |
| `MpDiv.DivideLoop` | sys/src/libmp/mpdiv.c:63-96 | All digits: quotient and remainder of the normalised dividend. |
| `MpDiv.mpdiv` | sys/src/libmp/mpdiv.c:9-112 | Quotient and remainder of the magnitudes are exact, whichever results are asked for and whichever of the operands they overwrite; and exactly the signs that are left: the quotient only ever gets a minus, a quick exit gives plus zero, and the remainder takes what is then the dividend's sign. |
| `MpMul.PartialSums` | sys/src/libmp/mpmul.c:78-92 | Every sum on the way fits the 4n+1 digits of the scratch result. |
| `MpMul.MiddleNotNegative` | sys/src/libmp/mpmul.c:88-92 | The signed middle term never takes more than is there. |
| `MpMul.mpkaratsuba` | sys/src/libmp/mpmul.c:17-96 | The exact product for a factor of one digit or more and a longer one of two or more, by halves of the longer one even when the other half is empty; the recursion ends. |
| `MpMul.mpvecmul` | sys/src/libmp/mpmul.c:100-132 | The exact product of vectors of any lengths, into zeroed digits, above and below the threshold for Karatsuba. |
| `MpMul.mpmul` | sys/src/libmp/mpmul.c:134-156 | The product of the integers, also into one of the factors. |
| `MpModular.mpmod` | sys/src/libmp/mpmod.c:9-15 | The remainder, and how a negative dividend is corrected, for all sharing of objects. |
| `MpModular.ModResultIsMod` | sys/src/libmp/mpmod.c:12-14 | What that is: congruent to the dividend, in [0,m), but m itself for a negative multiple of m reduced into another number; with the modulus as the result a negative dividend is never corrected. |
| `MpModular.mpexp` | sys/src/libmp/mpexp.c:17-94 | For e > 0 the residue of b^e for a b that is not negative, the power itself without a modulus; 1 for e = 0 whatever m is; the result may be any of the inputs. |
| `MpModular.BitLoop` | sys/src/libmp/mpexp.c:58-77 | The two buffers: after every bit one of them is congruent to b to the part of the exponent read, reduced only when longer than the modulus. |
| `MpGcd.HalveSide` | sys/src/libmp/mpextendedgcd.c:57-65 | While u is even: its equation u = A*a + B*b survives, every halving of a signed coefficient is exact, and odd common divisors stay. |
| `MpGcd.GcdLoop` | sys/src/libmp/mpextendedgcd.c:55-93 | The loop ends, with v a combination of a and b and divided by their odd common divisors only. |
| `MpGcd.mpextendedgcd` | sys/src/libmp/mpextendedgcd.c:12-106 | For inputs with plus signs v is the greatest common divisor and a*x + b*y = v; a minus sign, on a zero too, gives three zeros. |
| `MpGcd.mpinvert` | sys/src/libmp/mpinvert.c:8-21 | Succeeds if and only if b has a plus sign and is coprime to m; then 0 <= res < m, b*res is 1 modulo m, and res > 0 when m > 1. |
| `MpText.modbillion` | sys/src/libmp/mpfmt.c:77-93 | Nine digits of a group, fewer for the leading one; it fails only if the whole numeral does not fit. |
| `MpText.to10` | sys/src/libmp/mpfmt.c:95-125 | The decimal numeral of the magnitude and a NUL, or failure exactly when they do not fit. |
| `MpText.to16` | sys/src/libmp/mpfmt.c:46-75 | The same in base sixteen, without leading zeros. |
| `MpText.mptoa` | sys/src/libmp/mpfmt.c:149-193 | The text of the number, a minus sign on a minus zero too, in the buffer if it fits and in a new one always. |
| `MpText.AllocationSuffices` | sys/src/libmp/mpfmt.c:155-162 | The length that mptoa allocates is enough for every number in both bases. |
| `MpParse.uitomp` | sys/src/libmp/mptoui.c:10-20 | The one-digit number, in the object given. |
| `MpParse.from10` | sys/src/libmp/strtomp.c:76-112 | Reads the longest run of decimal digits as the number it stands for, nine at a time. |
| `MpParse.from16` | sys/src/libmp/strtomp.c:46-70 | Reads the longest run of hexadecimal digits, from the last to the first. |
| `MpParse.strtomp` | sys/src/libmp/strtomp.c:157-208 | For every string: nothing exactly when no digit follows the blanks and signs, and otherwise the sign, the magnitude and the end of the text. |
| `MpParse.TextRestored` | sys/src/libmp/strtomp.c:157-208 | What is printed for a sign and a magnitude is read back as just those, minus zero included. |
| `MpParse.SpelledIsRead` | sys/src/libmp/strtomp.c:166-180 | Blanks, any number of minus signs, digits and what follows are read as the number of the digits, negated once for each sign. |
| `MpParse.NothingToRead` | sys/src/libmp/strtomp.c:166-180 | And where no digit follows the blanks and signs nothing is read. |
| `Numerals.DigitExactly` | sys/src/libmp/strtomp.c:5-41 | A character is a digit of the base exactly if it has a place below it in one of the two rows 0-9 a-f and 0-9 A-F, and that place is its value. |
| `Numerals.NumeralRestored` | sys/src/libmp/mpfmt.c:46-125 | The digits written for a number stand for that number, in base ten and sixteen. |
| `NumberTheory.Fermat` | sys/src/libsec/rsadecrypt.c:16-31 | Fermat's little theorem, on which decryption rests. |
| `Rsa.rsafill` | sys/src/libsec/rsafill.c:5-60 | A record is made if and only if p and q pass for primes, n = pq, ed = 1 modulo (p-1)(q-1), and p and q differ; it holds the key with the derived kp, kq and c2. |
| `Rsa.rsaencrypt` | sys/src/libsec/rsaencrypt.c:5-12 | The ciphertext is m^e modulo n. |
| `Rsa.rsadecrypt` | sys/src/libsec/rsadecrypt.c:8-37 | The result is the two residues of c recombined modulo n, whatever the order of p and q; the result may be c. |
| `Rsa.DecryptEncrypt` | sys/src/libsec/rsadecrypt.c:16-31 | RSADP undoes RSAEP (sections 5.1.1 and 5.1.2 of RFC 8017) on every m < n for odd primes: exactly, not only modulo n. |
| `Rsa.DecryptionCorrect` | sys/src/libsec/rsafill.c:16-45 | A key that rsafill made decrypts every message if and only if both primes are above 2. |
| `Rsa.TwoIsAccepted` | sys/src/libsec/rsafill.c:11-33 | The numbers p = 2, q = 5, e = d = 3 pass all the checks, and 0 is decrypted to 5. |
| `Rsa.ZeroMiscarries` | sys/src/libsec/rsafill.c:33-40 | With 2 as a prime the encryption of 0 is not decrypted to 0. |
| `Signatures.dsasign` | sys/src/libsec/dsasign.c:5-52 | r and s are those of section 4.6 of FIPS 186-4 for some inverse of k. |
| `Signatures.dsaverify` | sys/src/libsec/dsaverify.c:5-46 | Accepts exactly the signatures in range whose recomputed value, section 4.7 of FIPS 186-4, is r. |
| `Signatures.DsaSignThenVerify` | sys/src/libsec/dsaverify.c:20-39 | Every signature made with r and s not zero is accepted. |
| `Signatures.egsign` | sys/src/libsec/egsign.c:5-43 | r and s of an ElGamal signature for some inverse of k. |
| `Signatures.egverify` | sys/src/libsec/egverify.c:5-29 | Accepts exactly when r is in range and the equation of the two powers holds. |
| `Signatures.EgAccepts` | sys/src/libsec/egverify.c:13-24 | Every ElGamal signature that is made is in range and satisfies the equation. |
| `RegExec.ThreadList.renewthread` | sys/src/libregexp/regaux.c:31-57 | A thread for an instruction pending on the list is dropped or begins earlier, and any other goes to the end. |
| `RegExec.ThreadList.renewemptythread` | sys/src/libregexp/regaux.c:89-113 | The start is added unless its instruction is pending already. |
| `RegExec.renewmatch` | sys/src/libregexp/regaux.c:10-24 | The saved match is at least as good as before and as the new one. |
| `RegExec.AllVisited` | sys/src/libregexp/rregexec.c:59-134 | Duplicates are looked for among pending threads only, and yet once nothing is pending every run of the machine that stands at the character was followed. |
| `RegExec.SkipIsSafe` | sys/src/libregexp/rregexec.c:46-57 | Going on to the next place of the first character misses no match. |
| `RegExec.RunThread` | sys/src/libregexp/rregexec.c:76-133 | One thread run to its end keeps what the two lists and the saved match mean. |
| `RegExec.OneEachNeeds` | sys/src/libregexp/regaux.c:31-57 | A list with one thread at most for an instruction needs no more room, with all that its threads add, than there is one of each. |
| `RegExec.rregexec1` | sys/src/libregexp/rregexec.c:11-148 | A result of 1 or 0 is right: it is 1 exactly when some part of the text takes the program from its start to END, and the match is then the leftmost such part, longest among those. It is never -1 if instructions can be given costs, an OR's above those of both its links together and any other's that takes no character not below its link's, such that at every position of the text those of the instructions a character led to, and of the start, come to less than the lists' size. |
| `RegExec.rregexec` | sys/src/libregexp/rregexec.c:169-212 | The same of the run on small lists and, after an overflow, on larger ones, whose 48 places the costs at every position of the text must stay below. |
| `RegExec.AnyTextRoomy` | sys/src/libregexp/rregexec.c:11-148 | Costs of all instructions that come to less than the lists' size are enough for every text. |
| `RegRoom.MayBeEmptyExactly` | sys/src/libregexp/regcomp.c:170-233 | The operands over which a loop may take nothing are those that match the empty span of some text. |
| `RegRoom.CostsExactly` | sys/src/libregexp/regcomp.c:170-284 | The optimized program of an expression has such costs if and only if no STAR or PLUS in it stands over an operand that matches the empty span. |
| `RegRoom.RoomyExactly` | sys/src/libregexp/regcomp.c:170-284 | Costs of its instructions come to less than the lists' size if and only if, besides, the least ones do, which are worked out from the expression alone. |
| `RegLang.PostfixCommute` | sys/src/libregexp/regcomp.h:17-34 | Two postfix operators on the same operand match the same spans in either order. |
| `RegParse.ParsedMeansTheSame` | sys/src/libregexp/regcomp.c:70-106 | Every expression, written out with postfix above concatenation above alternation, is parsed to one that matches the same spans of every text, and to itself but for the numbers of its groups if no postfix operators are stacked. The parse fails only on a full table, and not if the depth of the expression leaves room on the stacks and its groups are fewer than 32. |
| `RegParse.StackedParse` | sys/src/libregexp/regcomp.c:70-106 | Of two postfix operators in a row the one that binds tighter is applied first, whichever comes first: x+? is parsed as (x?)+. |
| `RegAccept.AcceptsOnlyExpressions` | sys/src/libregexp/regcomp.c:70-106 | Nothing else is accepted: a token string that is parsed is empty or what some expression prints. |
| `RegCode.CodeComplete` | sys/src/libregexp/regcomp.c:170-233 | Every span that an expression matches is a path through its code. |
| `RegCode.CodeSound` | sys/src/libregexp/regcomp.c:170-233 | Every path that leaves the code of an expression leaves it at the one place, over a span that the expression matches. |
| `RegCode.LinksAreGood` | sys/src/libregexp/regcomp.c:170-233 | Links that take no character go forward, but for those of a closure, which pass an OR: so NOP chains end. |
| `RegComp.Compiler.newinst` | sys/src/libregexp/regcomp.c:61-68 | One more instruction at the end, written without a test: every caller shows that there is room. |
| `RegComp.Compiler.token` | sys/src/libregexp/regcomp.c:70-106 | The step of the parser on a token, which adds two instructions at most, at once or when its operator is applied, even if it fails. |
| `RegComp.Compiler.evaluntil` | sys/src/libregexp/regcomp.c:170-233 | On fragments with patched links does what the parser does on expressions, each fragment remaining the code of its expression. |
| `RegComp.Compiler.reduce` | sys/src/libregexp/regcomp.c:177-231 | Each operator's code is that of its expression, and the fragments still tile the program. |
| `RegComp.Compiler.operator` | sys/src/libregexp/regcomp.c:88-106 | The step of the parser on an operator, implied concatenation and the count of parentheses with it. |
| `RegComp.Compiler.operand` | sys/src/libregexp/regcomp.c:70-86 | The step of the parser on an operand. |
| `RegComp.Compiler.optimize` | sys/src/libregexp/regcomp.c:235-284 | Every link is moved past the NOPs it leads to. |
| `RegComp.Compiler.close` | sys/src/libregexp/regcomp.c:522-541 | Succeeds exactly when the parser does; the program is then one for the parsed expression. |
| `RegComp.ExpressionProgram` | sys/src/libregexp/regcomp.c:483-549 | The whole program matches exactly the spans of its expression. |
| `RegOptimize.OptimizedRunnable` | sys/src/libregexp/regcomp.c:235-284 | No link of the optimized program leads to a NOP. |
| `RegOptimize.OptimizedMatches` | sys/src/libregexp/regcomp.c:235-284 | The optimized program matches just the spans of the original. |
| `RegLex.sortRanges` | sys/src/libregexp/regcomp.c:446-457 | The ranges in order of their first runes: a permutation, in place. |
| `RegLex.mergeRanges` | sys/src/libregexp/regcomp.c:459-478 | The same runes, in ranges that neither overlap nor touch. |
| `RegPattern.Lexer.bldcclass` | sys/src/libregexp/regcomp.c:392-481 | A class matches exactly the runes of the ranges that are written, or is refused for the reason it should be. |
| `RegPattern.Lexer.lex` | sys/src/libregexp/regcomp.c:353-390 | The next token of the pattern, or its end, or the reason that its class is refused. |
| `RegText.LexedLike` | sys/src/libregexp/regcomp.c:353-481 | From the pattern of an expression, defined by recursion on it, the lexer makes its tokens and no others: operators, quoted and plain runes, the dot, the anchors, and classes with ranges and negation. |
| `RegPattern.regcomp1` | sys/src/libregexp/regcomp.c:483-549 | A pattern that compiles is an expression, or empty, and its program matches just what the expression does; a pattern fails exactly at the first token that the parser refuses, at the first class that is malformed, too large or one too many, or at its end, and for that reason; a grammar error is only reported for what is no expression; and the instructions are never more than two for a token and one, well within the memory that is allocated. Written out as a pattern in any of the ways there are, with special runes quoted and others quoted or not, every expression compiles to a program that matches what it means, where a negated class takes no newline, unless one of four tables is too small for it, and then for that reason. |
| `RegPattern.LiteralCompiles` | sys/src/libregexp/regcomp.c:553-563 | A literal pattern, not empty and without backslashes, always compiles, and its program matches just the places where its runes stand. |
| `RegPattern.SearchHasRoom` | sys/src/libregexp/rregexec.c:11-212 | The lists always have room for the program of a pattern without stacked postfix operators if and only if every loop of its expression takes a character and the room worked out from it is below their size. |
| `RegPattern.ClosureHasRoom` | sys/src/libregexp/rregexec.c:11-212 | For one character, dot or class with a star, plus or question mark the small lists are enough. |
| `RegPattern.StackedLoop` | sys/src/libregexp/regcomp.c:170-233 | For a+? no costs exist, though as written none of its loops may take nothing: the input on which that condition on the written pattern fails. |
| `RegPattern.SearchFindsLongest` | sys/src/libregexp/rregexec.c:11-148 | From pattern to match: the search finds the leftmost, then longest, span the expression matches, or rightly none. |
| `PoolAlloc.Pool.pooldel` | sys/src/9/alloc.c:156-234 | The tree spelled out by the pointers loses just that block and stays ordered with one ring for each size; blocks outside the tree are not touched, and no magic or size is. |
| `PoolDelete.DelFacts` | sys/src/9/alloc.c:156-234 | Deletion takes out one block and keeps every other in one place and in order. |
| `PoolDelete.OneRingForASize` | sys/src/9/alloc.c:250-269 | Two free blocks are in the same ring exactly when they are of the same size. |
| `PoolUnlink.HeadTest` | sys/src/9/alloc.c:161 | A block has no parent and is not the root exactly when it is in a ring but not its head. |
| `PoolUnlink.MemberGone` | sys/src/9/alloc.c:161-165 | Taking out a ring's member that is not its head. |
| `PoolUnlink.HeadGone` | sys/src/9/alloc.c:167-191 | Taking out the head of a ring of several: the next one takes its place with both children. |
| `PoolUnlink.JoinedRep` | sys/src/9/alloc.c:193-218 | The two subtrees of a block without company become one, headed by the smallest ring above it. |
| `PoolUnlink.LoneGone` | sys/src/9/alloc.c:223-233 | That tree takes the block's place. |
| `PoolAlloc.Pool.pooladd` | sys/src/9/alloc.c:236-279 | The block joins the ring of its size, at the end, or becomes a leaf. |
| `PoolInsert.InsOrdered` | sys/src/9/alloc.c:250-279 | The tree stays in order, and gains no size but that of the block. |
| `PoolAlloc.Pool.search` | sys/src/9/alloc.c:297-318 | Finds the ring of just that size, or else the smallest block that is larger, or shows that there is none. |
| `PoolAlloc.Pool.fromTree` | sys/src/9/alloc.c:297-347 | The block taken is the best fit; it is cut to size unless little is too much; what remains goes back to the tree. |
| `PoolAlloc.Pool.split` | sys/src/9/alloc.c:330-341 | The end of the block becomes a free block of its own. |
| `PoolAlloc.Pool.newArena` | sys/src/9/alloc.c:401-429 | A new arena is tiled from its leader to its end mark. |
| `PoolAlloc.Pool.goOn` | sys/src/9/alloc.c:385-399 | New memory right after the newest arena becomes part of it, joined with a free block at its end. |
| `PoolAlloc.Pool.arenaFor` | sys/src/9/alloc.c:349-373 | How much is asked of the system, never above the pool's limit in all, and nothing exactly when the limit leaves no room. |
| `PoolAlloc.Pool.dopoolalloc` | sys/src/9/alloc.c:281-430 | The invariant of the whole pool is kept; the new block was not in use, is large enough, and is the best fit if the tree had one; for a program that is not held back a block is found if and only if the tree has one or the system has memory and the limit of the pool leaves room; blocks in use keep their headers; a refusal changes nothing in use. |
| `PoolAlloc.Pool.poolalloc` | sys/src/9/alloc.c:432-440 | The same, but a restricted program gets nothing from a pool that is too full: exactly when a block is found. |
| `PoolAlloc.Pool.poolfree` | sys/src/9/alloc.c:442-477 | The invariant is kept; just that block is no longer in use and its size no longer counted; a free block that large exists. |
| `PoolAlloc.Pool.joinForward` | sys/src/9/alloc.c:455-463 | A free block after the freed one is joined to it; what follows then is not free. |
| `PoolAlloc.Pool.joinBackward` | sys/src/9/alloc.c:465-474 | So is one before it; the block is then all that the tree lacks. |
| `PoolAlloc.Pool.poolrealloc` | sys/src/9/alloc.c:479-507 | The block is returned where it is, with nothing changed, if it has room for the new size; any other positive size gets a new block exactly when poolalloc would have given one, and then the old one is freed; a size of 0 frees it; all others in use stay. |
| `PoolCells.BlocksApart` | sys/src/9/alloc.c:442-477 | In a tiled pool no two blocks overlap, and no two neighbours are both free. |
| `QLocks.WriterExcludes` | sys/src/9/lock.c:96-142 | In every run a writer inside excludes all readers and all other writers. |
| `QLocks.ReadersHoldK` | sys/src/9/lock.c:96-128 | The count is that of the readers counted in, and with the count at rest k is held for the readers exactly when there are some. |
| `QLocks.FirstCanqlockSucceeds` | sys/src/9/lock.c:96-105 | The first reader's canqlock of k never fails. |
| `QLocks.FirstComeFirstServed` | sys/src/9/lock.c:41-94 | A lock with waiters is locked, and hands over in the order in which it was asked for. |
| `QLocks.HandedToFirst` | sys/src/9/lock.c:77-93 | In every run, while processes wait for a lock, it changes hands only to the first of them. |
| `QLockList.QLock.qlock` | sys/src/9/lock.c:41-61 | With head, tail and qnext: the lock is taken, or the process goes to the end of the list; as in the step system. |
| `QLockList.QLock.canqlock` | sys/src/9/lock.c:63-75 | The lock is taken just when it is free; the list stays. |
| `QLockList.QLock.qunlock` | sys/src/9/lock.c:77-93 | The first process on the list gets the lock, or it is free; as in the step system. |
| `QLocks.NobodyStuck` | sys/src/9/lock.c:41-142 | If every process in a call is blocked there is none: no wakeup is lost and no deadlock arises. |
| `QLocks.ReadersShare` | sys/src/9/lock.c:96-122 | Readers share: in every run, with a reader inside and nobody having x or a spin lock, another comes inside through rlock or canrlock by its own steps alone. |
| `QLocks.CanRlockRefused` | sys/src/9/lock.c:108-122 | canrlock is refused, and leaves no trace, when x is locked, by its own steps alone. |
| `QLocks.WriterEnters` | sys/src/9/lock.c:130-135 | A writer comes inside by its own steps alone when x and k are free. |
| `QueueWait.NeverPanics` | sys/src/9/proc.c:39-73 | Sleep never finds its rendezvous taken. |
| `QueueWait.ReaderNotForgotten` | sys/src/9/qio.c:880-902 | With nothing under way a sleeping reader means an empty open queue that has Qstarve set. |
| `QueueWait.WriterNotForgotten` | sys/src/9/qio.c:1193-1285 | And a sleeping writer an open queue with Qflow set and at least half its limit, if reads drop no empty blocks. |
| `QueueWait.NotBothAsleep` | sys/src/9/qio.c:1022-1285 | Then a reader and a writer are never asleep at once, for a limit of two or more. |
| `QueueWait.WritersHeldUp` | sys/src/9/qio.c:1193-1285 | Writers are held up: in every run without interruptions, whenever no writer waits or is about to see whether it must, the queue holds less than its limit and one block more. |
| `QueueWait.StuckIsQuiet` | sys/src/9/proc.c:39-130 | When no process in a call can step, all of them are at rest. |
| `QueueWait.WriterForgotten` | sys/src/9/qio.c:1128-1133 | A coalescing read that drops the empty block a writer waits behind leaves both asleep: the run. |
| `QueueWait.WritersSafeExactly` | sys/src/9/qio.c:1128-1133 | Writers are never forgotten if and only if reads do not coalesce or no empty blocks are written. |
| `QueueData.Queue.FirstInFirstOut` | sys/src/9/qio.c:720-939 | On an open queue that is not of messages the bytes taken out are a prefix of those accepted, and the queue holds just the rest; dlen counts it. |
| `QueueData.Queue.qbwrite` | sys/src/9/qio.c:1193-1285 | The block is added whole at the end, or refused on a closed queue; a reader is woken exactly when one was starved. |
| `QueueData.Queue.qwrite` | sys/src/9/qio.c:1290-1319 | All bytes are accepted in order, unless the queue is closed; on a queue of messages the first 32768 of them become one block. |
| `QueueData.Queue.qproduce` | sys/src/9/qio.c:720-776 | All bytes or, on a closed or full queue, none. |
| `QueueData.Queue.qread` | sys/src/9/qio.c:1100-1180 | The bytes are the next ones, no more than asked for, none skipped when a block is cut short, and the blocks that remain; how much a coalescing read returns; on a closed empty queue the end of file or the error, by the count of such reads; and when the writer is woken. |
| `QueueData.Queue.qbread` | sys/src/9/qio.c:1046-1095 | The next block, and for all but messages the rest of it stays first; all later blocks stay. |
| `QueueData.Queue.closedReads` | sys/src/9/qio.c:888-894 | After a close the first three reads give the end of file, and all later ones the error. |
| `QueueData.Queue.qget` | sys/src/9/qio.c:443-477 | The next block whole, or none; and when the writer is woken. |
| `QueueData.Queue.qconsume` | sys/src/9/qio.c:526-592 | The next bytes of the first block that has any; empty ones are freed, and on a queue of messages the rest of the block; and when the writer is woken. |
| `QueueData.Queue.qdiscard` | sys/src/9/qio.c:482-521 | Exactly the next n bytes are dropped, or all there are; a writer is woken as soon as less than the limit is left. |
| `QueueData.Queue.qputback` | sys/src/9/qio.c:1007-1016 | The block is first again and is counted. |
| `QueueData.Queue.qremove` | sys/src/9/qio.c:925-939 | The first block comes out and is no longer counted. |
| `QueueData.Queue.qclose` | sys/src/9/qio.c:1393-1419 | The queue is closed and empty, and both flags are off. |
| `QueueData.bl2mem` | sys/src/9/qio.c:946-967 | The bytes copied and those of the blocks left are the bytes there were. |
| `QueueData.pullupblock` | sys/src/9/qio.c:208-256 | The same bytes with at least n, or just n, in the first block, if and only if there are n. |
| `QueueData.OneLeft` | sys/src/9/qio.c:1162-1172 | After a read only one block can be left to put back. |
| `QueueOrder.OrderExactly` | sys/src/9/qio.c:1100-1180 | In every run, until a close, what came out is a prefix of what went in if and only if no qget, qconsume or qdiscard found bytes to take while a read had some in hand between its two critical sections; and then what is out, in hand and queued is all that was accepted, in order. |
| `QueueOrder.NothingLost` | sys/src/9/qio.c:443-592 | In every run, until a close, each accepted byte is out, in hand or queued, and just once, whoever takes bytes and when. |
| `QueueOrder.Overtaken` | sys/src/9/qio.c:1160-1175 | A qget while a block is being read brings the bytes out in the wrong order: the run. |
| `QueueOrder.ClosedEmptyExactly` | sys/src/9/qio.c:1160-1175 | In every run a closed queue is always empty if and only if no read puts the rest of a block back on it. |
| `QueueOrder.BytesAfterClose` | sys/src/9/qio.c:1393-1419 | A close while part of a block is being read leaves the rest to be read afterwards: the run. |
| `MntMux.TagsDistinct` | sys/src/9/devmnt.c:1016-1115 | In every run requests in being have different tags, never 0 or NOTAG. |
| `MntMux.OneReader` | sys/src/9/devmnt.c:770-825 | At most one process reads replies at a time. |
| `MntMux.QueuedWhileUnanswered` | sys/src/9/devmnt.c:770-825 | A caller's request is queued exactly while it is sent and not done, flushes and interrupts included. |
| `MntMux.ReturnsAnswered` | sys/src/9/devmnt.c:932-1014 | When mountio returns the original request is off the queue, with a reply of its own tag or an Rflush, section flush(5) of the Plan 9 manual. |
| `MntMux.OkExactly` | sys/src/9/devmnt.c:770-825 | In every run mountio is about to return, and not to raise an error, if and only if it has not failed to write or to read since it was called. |
| `MntMux.ReturnsNormally` | sys/src/9/devmnt.c:770-825 | In every run a mountio that was neither interrupted nor failed returns normally, with the reply that has its own tag. |
| `MntMux.NothingLeaks` | sys/src/9/devmnt.c:1042-1115 | In every run just the tags of the requests in being are taken, and each of these belongs to a caller or is one of the ten at most that are kept: none is lost. |
| `MntMux.ReaderHandedOn` | sys/src/9/devmnt.c:802-822 | A process sleeps only on a queued request that is not answered; and then somebody reads or is on the way to the gate, in every run in which no flush fails to be sent while nobody reads. |
| `MntMux.HandedOnExactly` | sys/src/9/devmnt.c:775-783 | In every run somebody reads or is on the way to the gate whenever some sleep, if and only if no process fails to send its flush, without a call of mntgate, while nobody reads, some sleep and nobody else is on the way. |
| `MntMux.RoleLost` | sys/src/9/devmnt.c:775-798 | A waiter that is woken for the gate, interrupted, and fails to send its flush leaves another asleep with nobody to read: the run. |
| `MntTags.TagMask.alloctag` | sys/src/9/devmnt.c:1016-1034 | The lowest tag that was free, never 0, is in use and no other changes; NOTAG exactly when none was free. |
| `MntTags.TagMask.freetag` | sys/src/9/devmnt.c:1036-1040 | Just that tag becomes free. |
| `Idea.PrimeDivisorOf` | sys/src/libsec/idea.c:8 | A prime divisor of 65537 is 1 modulo 32, since 2 to the 16th is -1. |
| `Idea.PIsPrime` | sys/src/libsec/idea.c:8 | 65537 is a prime. |
| `Idea.ModIsProduct` | sys/src/libsec/idea.c:22-36 | The low-high trick multiplies residues modulo 65537, with 0 for 65536. |
| `Idea.inv` | sys/src/libsec/idea.c:38-61 | Euclid's loop finds the inverse of every word, and stays within range. |
| `IdeaKeys.idea_key_setup` | sys/src/libsec/idea.c:80-97 | Each word of the encryption key is a window of sixteen bits on the 128-bit key turned by 25 bits after every eight words, those at 49 and 50 exchanged; and the other half is its inverse. |
| `IdeaKeys.idea_key_setup_decrypt` | sys/src/libsec/idea.c:63-78 | The second half of the array undoes the first, round by round. |
| `IdeaCipher.idea_cipher` | sys/src/libsec/idea.c:99-132 | The eight bytes are replaced by what the seventeen rounds make of them, and no others. |
| `IdeaCipher.CipherBack` | sys/src/libsec/idea.c:99-132 | Decryption undoes encryption on every block, for every pair of keys so related. |
| `IdeaCipher.FirstRoundOfExample` | sys/src/libsec/idea.c:99-132 | The first round of the published example: the key words 1 to 6 take the words 0 to 3 to 00F0 00F5 010A 0105. |
| `IdeaCbc.IDEAstate.constructor` | sys/src/libsec/idea.c:134-142 | The two key schedules, and the vector given or zeros. |
| `IdeaCbc.IDEAstate.encryptb` | sys/src/9/devssl.c:1168-1179 | The message is enciphered in place with chaining, and the vector becomes its last block. |
| `IdeaCbc.IDEAstate.decryptb` | sys/src/9/devssl.c:1238-1251 | The message is deciphered in place, and the vector becomes the last block received. |
| `IdeaCbc.MessageRestored` | sys/src/9/devssl.c:1238-1251 | Every message of whole blocks is restored. |
| `IdeaCbc.ConversationRestored` | sys/src/9/devssl.c:1168-1251 | So is any number of them one after another, from the same key and vector. |
| `Utf.RuneRestored` | sys/src/libc/rune.c:26-117 | A rune's bytes are read as that rune, whatever follows. |
| `Utf.ReadExactly` | sys/src/libc/rune.c:26-117 | On any bytes a rune is read exactly if they begin with the bytes that are written for it. |
| `Utf.ReadOrError` | sys/src/libc/rune.c:26-73 | And whatever else stands there, overlong forms, surrogates and stray bytes, is read as an error of one byte. |
| `Utf.PartRune` | sys/src/libc/rune.c:151-166 | The bytes of a rune that is cut off are not taken for a whole one. |
| `Quote.quotesetup` | sys/src/fmt/fmtquote.c:30-104 | For every limit the counts are exactly those of what is printed of the accepted part, within the limit; no longer part of the text would fit; and everything is accepted, with quotes exactly if needed, if and only if it fits. |
| `Quote.Fmt.qstrfmt` | sys/src/fmt/fmtquote.c:106-178 | What comes out is the quoted form of the accepted part; it fails only if the counted bytes do not fit. |
| `Quote.Fmt.quotestrfmt` | sys/src/fmt/fmtquote.c:180-218 | Never runs out of room, and prints all of the string if its form fits. |
| `Quote.PrintedAsItIs` | sys/src/fmt/fmtquote.c:30-104 | A text that is not empty and holds no blank, control rune, quote or rune of the caller's is printed as it is. |
| `Quote.PrintedInQuotes` | sys/src/fmt/fmtquote.c:30-104 | One that holds any of these is printed in quotes. |
| `Tokenize.qtoken` | sys/src/libc/tokenize.c:6-42 | In place, the token without its quotes and a NUL after it; nothing else changes. |
| `Tokenize.tokenize` | sys/src/libc/tokenize.c:92-107 | For every line the arguments point to its tokens, up to the limit, which stay intact while later ones are split off. |
| `Tokenize.BareWordsSplit` | sys/src/libc/tokenize.c:92-107 | Words with any blanks, tabs, carriage returns and newlines before, between and after them are split into just the words. |
| `Tokenize.QuotedTextsRestored` | sys/src/libc/tokenize.c:92-107 | Splitting the %q forms of any texts, joined by spaces, gives back exactly the texts, empty ones too. |

## Left out

- MpText.mptoa: bases 32 and 64 are not modelled, and neither is `mpfmt`, which only passes the text on; the same holds
  for MpParse.strtomp.
- MpParse.strtomp: the string is a value, read only; what comes after its NUL may be anything.
- Rsa.rsafill: the verdict of `probably_prime` is taken to be right; prime generation is left out.
- Signatures.dsasign: k is an input that has passed the exit test of the loop; so is that of `egsign`.
- RegExec.rregexec1: a return of -1, when a list overflows, claims nothing where no costs come to less than the lists' size: with
  a loop that may take nothing, or with too many instructions alive at once. Sub-expression matches, end limits and the byte
  version of the engine are not modelled, and the capacity test is "at or past the end".
- RegPattern.regcomp1: NULs, memory exhaustion and the decoding of the pattern's bytes into runes are not modelled.
- PoolAlloc.Pool.dopoolalloc: `poolcompact` is not modelled (no `move` is installed, so it does nothing), nor locks,
  monitors, memory tags and the 32-bit wrap of the sizes; where the system puts new memory is an input, past all the
  pool has.
- PoolAlloc.Pool.poolrealloc: the bytes of a block are not modelled, only that its header and those of all others stay.
- PoolAlloc.Pool.newArena: the list of arenas through `clink` is written but nothing is stated about it.
- QLocks.NobodyStuck: spin locks and `osblock` are single steps, with a wakeup that is kept until it is used.
- QueueWait.WriterNotForgotten: one queue, with blocks known by their sizes, and a block that is split takes no more room than
  before; `kick`, bypass and message queues and `qnoblock` are not modelled.
- QueueData.Queue.qread: runs as one step; the window between its two critical sections is in QueueOrder, for bytes and their order,
  and in QueueWait, for sizes.
- QueueOrder.OrderExactly: message queues, whose rests are dropped, and non-blocking writes over the limit are not modelled.
- QueueData.pullupblock: how much room a block has is an input; `pullupqueue` does not update `len` and is not modelled.
- QueueData.Queue.qclose: the hangup message is not modelled; `qiwrite`, `qpass`, `qcopy` and `qaddlist` would add only
  easy members.
- MntMux.ReturnsAnswered: 9P messages are tags and kinds, going to sleep is one step, as is leaving the gate with the wakeup
  that follows; marshalling,
  `mntversion` and walks of the name space are not modelled.
- IdeaCbc.IDEAstate.encryptb: record framing, padding and the other ciphers of devssl are not modelled.
- IdeaKeys.idea_key_setup: the words that are combined by `|` have no common bit, so the model adds them.
- Quote.quotesetup: the input is valid text, as its comment says; input as runes (`%Q`) and a limit on the input are not modelled.
- Quote.Fmt.qstrfmt: output is bytes, without a field width.
- Tokenize.tokenize: `gettokens` would add only easy members.
- Concurrent routines are modelled on values, as one step system each, since every interleaving is the point; the histories
  in their states (`asked`, `given`, and who holds what) are there to state the theorems.
- Hash functions, AES and DES, floating point, I/O libraries, the browser's side and the table of devices are not modelled.
