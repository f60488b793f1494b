# Models of four small cores

The repository's shared headers and build tools contain a few pieces of code that do real work by
hand: 64-bit arithmetic on two 32-bit words, path names taken apart and put together character by
character, linked rings and doubling arrays, and tools that edit a directory tree and can undo or
restore what they did. This project models them in Dafny, in the form the C and C++ code has
(variables, buffers, shared nodes and a file tree that methods change), and proves what each is for.

| files | what they model |
|---|---|
| `Words`, `Jlong`, `Shifts`, `Machine` | the struct form of Java's `long` (`include/jri_md.h`), against the native form in the same header |
| `Longlong` | the multi-word division behind `LL_DIV` and `LL_MOD` (`nspr/src/longlong.c`) |
| `CText`, `Paths` | C strings in buffers; path resolution in a tree without symbolic links (IEEE Std 1003.1-2017, Base Definitions, section 4.13) |
| `PathSub`, `Relate`, `RelateProof`, `RelateExact`, `Reverse`, `ReverseProof` | `getcomponent`, `xbasename`, `relatepaths`, `reversepath` (`config/pathsub.c`) |
| `Install` | the relative symbolic links of `nsinstall -R` |
| `Disk`, `MkDirs`, `MkDirsProof`, `MakeDirs` | `mkdirs` of nsinstall and `MakeDir` of makecopy |
| `Rings` | the circular lists of `include/ds.h` |
| `Growable`, `Stack` | `CXP_GrowableArray` and `CXP_PtrStack` (`include/garray.h`) |
| `Mangle` | the renamer with its undo script (`config/mangle.c`) |

## How the model reads the code

- A word is an integer in 0 .. 2^32 - 1 and every C operator on it wraps explicitly. Bit-wise "or"
  and "and" are defined bit by bit. Signed right shifts are arithmetic and signed casts two's
  complement, as the code assumes. A struct variable is an object, so that the result of a macro may
  be one of its operands.
- `U` and `S` are the unsigned and signed readings of two words; `Long(x)` is what a native signed
  64-bit variable holds after an assignment of the integer x; `TruncDiv` and `TruncMod` are C's
  division (ISO/IEC 9899:1999, section 6.5.5).
- A node of a directory tree is the list of names on the way from the root. `Resolve(t, at, p)` is
  the object that path p names from directory `at`, or `None`. `Restrict` keeps it only if it is a
  directory. An empty piece of a path (from doubled or trailing slashes) stays in a directory and
  fails elsewhere; `..` in the root stays there; the empty path names nothing. `Canonical` paths are
  what `getcwd` reports.
- A buffer is an array; `Text` is the C string it holds. Routines with long bodies are cut into
  methods (one loop or one branch each), every one proved against what it computes.
- A `Disk` is a tree with the set of nodes the system refuses to create and the list of directories
  made so far. A `Volume` is a directory of the mangled volume with its script and a count of system
  calls; those in a given set fail for reasons of their own, so every theorem about `mangle` holds for
  every pattern of failures.

## What came out

Where the code does not do what it is meant to do, a theorem says exactly when it does.

- `LL_CMP` is documented for `<` and `>` only, but `nspr/src/uxhwmon.c:111` uses it with `>=`. With a
  non-strict operator equal high words decide alone, so a wait whose elapsed time is below the
  time-out in the low word only is taken for elapsed. `Jlong.Cmp` states when the answer is right.
- `ll_udivmod` stores the dividend itself as the remainder when the divisor's top bit is set: the
  subtraction is made and its result dropped (`nspr/src/longlong.c:185-197`).
  `Longlong.StoredRemainderExact` and `Longlong.LlRemainderExact` say when this matters; for signed
  operands it is the single case of the most negative value modulo itself, which gives that value
  instead of zero. The quotient is always right. The `jlong_udivmod` that `include/jri_md.h` declares
  has only a stub body (`sun-java/runtime/jrijdk.c:2981-2985`), so `jlong_DIV` and `jlong_MOD` are
  proved against the header's comment.
- `relatepaths` is right for a canonical `from`, which is what nsinstall passes (it comes from
  `getcwd`), and any absolute `to` (`RelateProof.RelateResolves`). For paths that may have doubled and
  trailing slashes `RelateExact.RelateExactly` says exactly when it is right. With d the common part,
  `from` = d + x and `to` = d + y, it goes wrong when x and y are both empty (the result is the empty
  path), and, unless d names the root, when x begins with a slash (one step up too many) or x is empty
  and y begins with a slash (an absolute result). For `to` = `/` the result is `//`, which resolves to
  the root here (`RelateProof.RelateToRoot`).
- `mkdirs` makes a path if and only if, from the first missing directory on, no piece of the path is
  empty (a doubled slash) or made of dots, and each directory can be made. Otherwise it makes what
  comes before that piece, fails, and leaves the path cut there (`MkDirsProof.MakeTextExact`, on every
  path). On `a//b` with no `a` it makes `a`, fails and leaves `a` (`MkDirsProof.DoubledExample`).
- `MakeDir` has no return statement after its loop; its success is taken as the value the caller
  tests for.
- `NewSize` never ends for a request above 2^30 when `int` has 32 bits (`Growable.NewSizeEnds`).
- The script of `mangle` restores the directory after a successful run if and only if no file of the
  listing has a short name that is the long name of a file listed before it; with such a clash,
  replaying the script overwrites a file (`Mangle.SuccessRestores`). The same holds of the files
  renamed by a run that fails, and then the run must also not have ended in a failed write to the
  script or a failed undoing move (`Mangle.ScriptRestores`, `Mangle.ResidueMeansFault`). Where only
  files whose own name is not of the 8.3 form are given a short name, which is its purpose, no listing
  clashes (`Mangle.NoClashOnDos`); the tool itself does not check.
- `reversepath` is reached in nsinstall only for a relative `todir`, and `main` passes it the length
  of the name before `xbasename` stripped trailing slashes. The model allows any length not below the
  name's.

## Model

| member | source | states |
|---|---|---|
| Words.OrAdds | include/jri_md.h:330 | "or" with a word whose bits lie below the vacated ones is addition, for every shift count |
| Words.MaskIsMod | include/jri_md.h:120-124 | "and" with JRI_BITMASK(n) is the remainder mod 2^n |
| Jlong.Readings | include/jri_md.h:188-195 | the high word counts 2^32 times in the unsigned reading, and its top bit takes off 2^64 in the signed one |
| Jlong.Cmp | include/jri_md.h:204-208 | with `<` and `>` the macro's answer is that of the signed 64-bit values; with `<=` and `>=` it is also yes whenever the high words are equal; so it is the signed comparison if and only if the operator is strict, or the high words differ, or the low words are in the relation |
| Jlong.UCmp | include/jri_md.h:209-210 | the same for the unsigned values |
| Jlong.Eq | include/jri_md.h:200 | word-wise equality is equality of both readings |
| Jlong.StrictOrder | include/jri_md.h:200-210 | each comparison with `<` is irreflexive, transitive and asymmetric, two values are incomparable exactly if the words are equal, and `>` is its converse |
| Jlong.GeZero | include/jri_md.h:202 | a clear top bit, found by shifting, is a non-negative signed value |
| Jlong.AddKeepsOrder | include/jri_md.h:207-230 | adding a common term keeps the signed order when neither sum overflows |
| Jlong.Neg | include/jri_md.h:223-224 | for any aliasing, the result's signed reading is the native negation, and its unsigned reading the negation mod 2^64 |
| Jlong.Add | include/jri_md.h:225-230 | the carry taken from `lo < b.lo` makes the words the sum mod 2^64 of the old operands, signed and unsigned, for any aliasing |
| Jlong.Sub | include/jri_md.h:232-237 | the borrow makes the words the difference mod 2^64, signed and unsigned, for any aliasing |
| Jlong.PolynomialProduct | include/jri_md.h:255-272 | in any base B from 2, the digit products fit a double digit and add up: the first sum into the middle digit cannot carry, the second carries exactly when the wrapped sum is below its second term, both words of the result are in range, and together they are the exact product |
| Jlong.SumDigits | include/jri_md.h:267-271 | the same carry facts for any four digit products adding up to a double word |
| Jlong.HalvesAreShifts | include/jri_md.h:251-253 | the half-word selectors are the shift by 16 and the mask, and moving the low half up is the left shift |
| Jlong.HalfWordProduct | include/jri_md.h:263-271 | the instance at base 2^16 in the words of the macro: no digit product wraps, the sum marked as unable to carry does not, the other carries exactly when the test says so, the high word takes the carry without wrapping |
| Jlong.NoWrap | include/jri_md.h:269-271 | the two word sums of the result are the plain sums |
| Jlong.Mul32 | include/jri_md.h:259-272 | the two words are the exact product |
| Jlong.Mul | include/jri_md.h:239-249 | the product mod 2^64 of the old operands, signed and unsigned, for any aliasing: the high words' product falls off the top |
| Jlong.UDivMod | include/jri_md.h:274-282 | the header's contract: unsigned quotient and remainder, either declined by null |
| Jlong.Magnitude | include/jri_md.h:286-297 | the opening branch yields the sign and the absolute value as an unsigned number, also of the most negative value |
| Jlong.GiveSign | include/jri_md.h:299-300 | the closing branch leaves the native value of the unsigned number with the sign asked for |
| Jlong.Div | include/jri_md.h:284-301 | for every nonzero divisor the native (truncating, wrapping) quotient of the old operands |
| Jlong.Mod | include/jri_md.h:303-319 | for every nonzero divisor the native remainder of the old operands |
| Jlong.DivModAgree | include/jri_md.h:164-165 | truncated division and remainder satisfy the division equation; the remainder is smaller than the divisor and has the dividend's sign |
| Jlong.WrappedDivision | include/jri_md.h:284-319 | quotient times divisor plus remainder is the dividend mod 2^64 without exception; the quotient fits in all cases but the most negative value over -1 |
| Shifts.Shl | include/jri_md.h:324-338 | for counts below 64, multiplication by 2^b mod 2^64, signed and unsigned, for any aliasing |
| Shifts.Shr | include/jri_md.h:359-373 | for counts below 64, floor division of the signed value by 2^b |
| Shifts.Ushr | include/jri_md.h:375-389 | for counts below 64, floor division of the unsigned value by 2^b |
| Shifts.ShiftsCompose | include/jri_md.h:167-169 | shifting by b and then c is shifting by b + c, in the wrapping and in the flooring sense |
| Longlong.HalfDigit | nspr/src/longlong.c:29-40 | the estimated half-word quotient digit, corrected at most twice with the carry test, is the true digit: dividend part = digit * divisor + remainder, remainder below the divisor |
| Longlong.TrueDigit | nspr/src/longlong.c:33-40 | a quotient estimate at most two too large becomes exact by exactly the corrections the code makes |
| Longlong.Correct | nspr/src/longlong.c:33-40 | in wrapping arithmetic the two conditional corrections take off one or two, according to the two comparisons of the unbounded values |
| Longlong.NormUdivmod32 | nspr/src/longlong.c:19-54 | quotient and remainder of a two-word dividend by a normalised word |
| Longlong.CountLeadingZeros | nspr/src/longlong.c:56-74 | 32 for zero, otherwise the shift that brings the top bit to bit 31 |
| Longlong.Probe | nspr/src/longlong.c:61-70 | one binary-search test halves the window that holds the top bit and keeps the word shifted accordingly |
| Longlong.ShiftLeft | nspr/src/longlong.c:131-136 | the three words are the two-word value times 2^lsh, with lsh vacant low bits |
| Longlong.OneDigit | nspr/src/longlong.c:86-105 | quotient and remainder when the quotient has one word |
| Longlong.TwoDigitQuotient | nspr/src/longlong.c:106-148 | quotient and remainder when the quotient has two words, the unnormalised special case included |
| Longlong.DivideByWord | nspr/src/longlong.c:85-153 | the whole branch for a one-word divisor |
| Longlong.TopBitDivide | nspr/src/longlong.c:170-197 | with the divisor's top bit set the quotient is right and the stored remainder is still the dividend |
| Longlong.CrossProduct | nspr/src/longlong.c:204-214 | the estimate times the divisor's low word stays below 2^63, so that one correction is enough |
| Longlong.TopEstimate | nspr/src/longlong.c:213-226 | the estimate is exact or one too large, told apart by the comparison with the partial remainder |
| Longlong.CorrectTop | nspr/src/longlong.c:214-226 | the wrapped product and the two wrapped subtractions yield the corrected digit and the true difference |
| Longlong.NormalisedDivide | nspr/src/longlong.c:198-230 | quotient and remainder for a two-word divisor with a clear top bit |
| Longlong.DivideByDword | nspr/src/longlong.c:154-232 | the whole branch for a two-word divisor: the quotient is right, the remainder is what StoredRemainder says |
| Longlong.StoredRemainderExact | nspr/src/longlong.c:180-197 | the stored remainder is the remainder if and only if the divisor is below 2^63 or the dividend below the divisor |
| Longlong.LlUdivmod | nspr/src/longlong.c:76-238 | for every nonzero divisor the exact unsigned quotient, and the remainder of StoredRemainder; null results are skipped |
| Longlong.LlDiv | nspr/include/prlong.h:184-201 | with this division LL_DIV is the native quotient for every nonzero divisor |
| Longlong.LlMod | nspr/include/prlong.h:203-219 | with this division LL_MOD leaves LlRemainder |
| Longlong.LlRemainderExact | nspr/include/prlong.h:203-219 | on 64-bit operands LL_MOD is the native remainder if and only if not both operands are the most negative value |
| Machine.Execute | include/jri_md.h:159-169 | one macro call on any of a set of struct variables, operands and result in any overlap, changes the values as the native assignment does: wrapped sums and products, truncating division, left shifts as products and right shifts as floor quotients by 2^n |
| Machine.Meaning | include/jri_md.h:159-169 | the native assignments say just that, the shifts through bounds on the product of the quotient with 2^n and not through a division |
| Machine.ZeroDivisor | include/jri_md.h:199 | the word test finds exactly the divisions by a value of zero |
| Machine.Successor | include/jri_md.h:207-210 | a branch is taken exactly when the two values, signed or unsigned, are in the strict relation asked for, and then skips the given count; everything else goes on |
| Machine.Run | include/jri_md.h:147-184 | every program of macro calls and forward branches ends on the struct variables as on native ones, same values, same trap at a division by zero |
| Machine.ValueLaws | include/jri_md.h:159-167 | the integer a tree denotes: sums, differences, negations and products of its parts, and doubling with each bit of a shift |
| Machine.Evaluate | include/jri_md.h:223-249 | any tree of NEG, ADD, SUB, MUL and SHL below 64, every operator writing over its own operand, evaluates to the tree's integer value wrapped once |
| Machine.WrapTwice | include/jri_md.h:159-161 | wrapping operands before adding, subtracting or negating does not change the wrapped result |
| Machine.WrapProduct | include/jri_md.h:163 | nor before multiplying |
| PathSub.GetComponent | config/pathsub.c:37-53 | null exactly at the end of the path; otherwise the name buffer holds a leading slash, or all up to the next slash or the end, and the new position is the first behind it that is no slash |
| PathSub.CopyComponent | config/pathsub.c:45-47 | the do-while loop copies exactly the characters up to the next slash |
| PathSub.PassSlashes | config/pathsub.c:50-51 | the loop stops at the first character that is no slash |
| PathSub.ComponentsAreNames | config/pathsub.c:37-53 | iterated on any path without a leading slash it yields exactly the non-empty slash-separated names, in order |
| PathSub.RejoinResolves | config/pathsub.c:37-53 | the components of any text, each followed by a slash, resolve from any directory of any tree as the text with a slash after it |
| PathSub.SplitEmit | config/pathsub.c:135-138 | text written name by name splits into those names again |
| PathSub.StripsSlashes | config/pathsub.c:96-97 | only slashes are stripped |
| PathSub.CutTrailing | config/pathsub.c:96-97 | the loop strips exactly the trailing slashes in place, changes nothing before or behind the text, and ends at the last slash of the rest |
| PathSub.LastSlash | config/pathsub.c:96 | the loop test tells whether the last slash ends the text |
| PathSub.XBasename | config/pathsub.c:91-100 | the returned position is just behind the last slash of the stripped path |
| Relate.CommonDir | config/pathsub.c:117-121 | the common part is a prefix of both paths that ends in a slash |
| Relate.CommonDirLongest | config/pathsub.c:117-121 | no longer common prefix ends in a slash |
| Relate.BackUp | config/pathsub.c:117-121 | the scan and the back-up stop behind the last slash of the common prefix |
| Relate.WriteUps | config/pathsub.c:131-134 | one "../" for each component left of `from` |
| Relate.WriteDowns | config/pathsub.c:135-138 | then every component left of `to` with a slash, behind what stood in the buffer |
| Relate.WriteWhole | config/pathsub.c:122-128 | in the root case the whole of `to` with a slash |
| Relate.RelatePaths | config/pathsub.c:109-141 | the buffer's first `len` characters are RelateText(from, to), terminated |
| RelateProof.UpAndOn | config/pathsub.c:131-134 | from a directory, as many "../" as it lies below an ancestor, and then any text, is that text from the ancestor |
| RelateProof.CanonicalRest | config/pathsub.c:131-138 | what is left of a canonical path after the common part has exactly its remaining names as components |
| RelateProof.RelateShape | config/pathsub.c:122-139 | the text is `to` with a slash if only the first slash is common; otherwise it is one "../" for each component left of `from` and then the components left of `to` |
| RelateProof.RelateResolves | config/pathsub.c:109-141 | for canonical `from` naming a directory and any absolute `to`, the text written resolves from `from` exactly as `to` with a slash does from the root |
| RelateProof.RelateCanonical | config/pathsub.c:109-141 | between two canonical directories the text resolves to the target |
| RelateProof.RelateToRoot | config/pathsub.c:122-128 | to the root it is "//", from everywhere |
| RelateExact.CountComponents | config/pathsub.c:42-50 | iterated `getcomponent` yields one component more than there are names exactly when the path begins with a slash |
| RelateExact.Climbs | config/pathsub.c:131-138 | with something left of `from` behind the common part, the text leads to the target exactly if that rest does not begin with a slash or the common part names the root |
| RelateExact.Stays | config/pathsub.c:135-138 | with nothing left of `from`, exactly if something is left of `to`, and that does not begin with a slash or the common part names the root |
| RelateExact.RelateExactly | config/pathsub.c:109-141 | for absolute paths of two directories, without dots but with any number of slashes, the text resolves from the one to the other if and only if Related holds, a condition on the two texts alone |
| Reverse.Process.Chdir | config/pathsub.c:102-107 | succeeds exactly when the name resolves to a directory, and then that is the current one |
| Reverse.TakeStep | config/pathsub.c:153-169 | one turn does what StepBack says to the current directory and to the text in the buffer, which stays terminated and grows to the left only |
| Reverse.Climb | config/pathsub.c:155-164 | for "..": the name of the current directory and a slash are put before the text, and the process is in the parent |
| Reverse.Descend | config/pathsub.c:165-169 | for a name: "../" is put before the text, and the process is in that directory if there is one |
| Reverse.CopyDown | config/pathsub.c:171 | the final copy within one buffer moves the text to its start although source and target overlap |
| Reverse.ReversePath | config/pathsub.c:143-172 | success, final directory and text are those of Reversed over the components |
| ReverseProof.ReversedDown | config/pathsub.c:165-169 | down by n names the text gets n times "../" in front |
| ReverseProof.ReversedUp | config/pathsub.c:153-164 | up it gets the name of the directory left, at the root its entry for itself; "." changes nothing |
| ReverseProof.StepBackResolves | config/pathsub.c:152-170 | loop invariant: from the new directory the longer text leads where the old text led from the old one; the step fails exactly when the name is no directory |
| ReverseProof.ReversedResolves | config/pathsub.c:152-170 | the same over any list of components |
| ReverseProof.ReversePathResolves | config/pathsub.c:143-172 | along any relative path, also one that climbs above the root: it succeeds exactly when the path leads to a directory, the process is then there, and the text names from there what `name` named at the start |
| Install.EnsureDirectory | config/nsinstall.c:165-169 | after a success the target path as given resolves to a directory, and no directory or file is lost |
| Install.RelativeLink | config/nsinstall.c:185-229 | the link text is the relative path from todir to cwd followed by the stripped name, `base` is where its last component begins, and in any tree where todir (as `getcwd` reports it) and cwd are directories, the text in the buffer resolves from todir to what the stripped name names from cwd |
| Install.LinkNamesSource | config/nsinstall.c:203-229 | resolved from todir, the link names what the stripped name names from cwd; the name as given differs only in demanding a directory if it had trailing slashes |
| Install.ContinueFrom | config/nsinstall.c:219-220 | resolution composes over putting a relative name behind a text that ends in a slash |
| Install.StripResolves | config/pathsub.c:92-100 | stripping trailing slashes keeps the object and drops only the demand that it be a directory |
| Install.BaseIsLastName | config/nsinstall.c:187-190 | what begins at the base name is the last slash-separated piece of the stripped path |
| Disk.MakeStepsExact | config/nsinstall.c:56-64 | making every missing directory on a path succeeds exactly if nothing on the way is a file or refused; then exactly the missing ones are added, shortest first, files unchanged |
| Disk.MakeStepsMeans | config/nsinstall.c:56-64 | the same on the prefixes of the path: it succeeds if and only if each is a directory, or neither a file nor refused, and then exactly they are added |
| Disk.StoppedIs | config/nsinstall.c:58-60 | on a failure all before the first directory that could not be made stand, and nothing else is made |
| Disk.NonDirectoryStops | config/nsinstall.c:58-60 | with a file on the way it fails and adds nothing |
| Disk.MakeStepsValid | config/nsinstall.c:64 | the tree stays prefix-closed |
| Disk.MakeStepsAppend | config/nsinstall.c:56-64 | making a path is making its parent and then its last name |
| MkDirs.DropsSlashes | config/nsinstall.c:52-53 | what is kept is the path behind its leading slashes with exactly one of them |
| MkDirs.SkipDoubled | config/nsinstall.c:52-53 | only slashes are passed, and the position is at the last of them |
| MkDirs.StripInPlace | config/nsinstall.c:54-55 | trailing slashes are cut in place, nothing outside the text changes |
| MkDirs.CutAtSlash | config/nsinstall.c:57 | cutting leaves the part before the slash as the text |
| MkDirs.RestoreSlash | config/nsinstall.c:62 | writing the slash back restores the whole text if and only if no shorter text stands in front of it |
| MkDirs.MakeParent | config/nsinstall.c:56-63 | the parent is made if it is no directory; a success restores the slash, a failure leaves the path cut |
| MkDirs.Finish | config/nsinstall.c:56-64 | on the stripped path, one level of the recursion: parent, slash restored, and the path itself |
| MkDirs.MakeDirectories | config/nsinstall.c:46-65 | disk, result and text left are those of the recursion MakeText; nothing outside the path's text changes |
| MkDirsProof.LeadWalk | config/nsinstall.c:58 | a path names a directory exactly if all its pieces lead on from directory to directory |
| MkDirsProof.AfterMaking | config/nsinstall.c:59-64 | once the missing names are made, the pieces resolve to the last of them and nothing lies below it |
| MkDirsProof.TargetNames | config/nsinstall.c:52-55 | dropping doubled leading slashes and trailing ones keeps what the path names, the root included, but for the demand that it be a directory; nothing is left exactly of slashes alone |
| MkDirsProof.MakeTextExact | config/nsinstall.c:46-65 | for every path (absolute or relative, any slashes and dots) that names no directory: mkdirs makes the missing directories in turn up to the first empty or dot piece behind the existing part; it succeeds if and only if there is no such piece and all could be made, and then the stripped path is whole; otherwise the disk is that of the making, and if only the piece stopped it, the text left ends there. For a directory or an empty path it fails and changes nothing |
| MkDirsProof.MakeTextRefused | config/nsinstall.c:57-61 | when a directory cannot be made, the text left is the path up to and including it |
| MkDirsProof.SuccessMakes | config/nsinstall.c:46-65 | after a success the path as given resolves to a directory; no directory is lost and no file touched |
| MkDirsProof.DoubledCase | config/nsinstall.c:54-64 | one level of the recursion at a doubled slash: the parent's outcome is kept, the same directory is made twice, and the call fails with the cut text |
| MkDirsProof.NameCase | config/nsinstall.c:56-64 | one level of the recursion at a proper last name |
| MkDirsProof.DotsCase | config/nsinstall.c:56-64 | one level of the recursion at a last piece of dots: it exists already and the call fails |
| MkDirsProof.LeadSteps | config/nsinstall.c:46-65 | on a path of proper names, making what is missing behind the existing part is making every directory on the path |
| MkDirsProof.DoubledFails | config/nsinstall.c:46-65 | on x//y with x missing: exactly x is made if it can be, the call fails, and x is the text left |
| MkDirsProof.DoubledExample | config/nsinstall.c:46-65 | the instance a//b |
| MakeDirs.Strchr | config/makecopy.c:48 | the first backslash from the position on, or none if there is none |
| MakeDirs.MakeAt | config/makecopy.c:49-60 | one turn: if the part before the separator resolves to a directory nothing happens, otherwise it is made or the call fails; the separator is restored on success and not on failure |
| MakeDirs.MakeDir | config/makecopy.c:42-63 | result, disk and text left are those of MakeDirText; a success restores the whole buffer; on every relative path, result and disk are those of making sure of each node its pieces lead to |
| MakeDirs.OnePiece | config/makecopy.c:49-59 | at a name, at dots or at a doubled separator, one turn makes sure of the node the piece leads to |
| MakeDirs.MakeDirSteps | config/makecopy.c:47-62 | from any position reached, the loop makes sure of each further node, and on a failure the text left ends with the piece that could not be made |
| MakeDirs.MakeDirExact | config/makecopy.c:42-63 | on every relative path, dots and doubled separators included: disk and result are those of making sure of each node in turn; the path is whole after a success and cut at the failing piece otherwise |
| MakeDirs.EachMeans | config/makecopy.c:47-62 | that succeeds if and only if every node is a directory, or neither a file nor refused; then exactly the nodes are added, and the pieces resolve to the last of them |
| MakeDirs.EachSteps | config/makecopy.c:47-62 | behind an existing part, which may have dots, proper names are made below the directory it leads to |
| MakeDirs.AbsoluteFails | config/makecopy.c:48-57 | a path that begins with a separator fails at once, leaving the empty text |
| MakeDirs.ProperMkdirs | config/nsinstall.c:46-65 | on a relative path of proper names mkdirs makes every directory on it, with the same outcome |
| MakeDirs.MakersAgree | config/makecopy.c:127-137 | for a relative path of proper names whose target is no directory yet, recursive mkdirs and iterative MakeDir succeed or fail alike with the same disk, and a success leaves both paths whole |
| MakeDirs.Uncut | config/makecopy.c:60 | a success leaves the whole path in the buffer |
| MakeDirs.MissingOnPath | config/makecopy.c:47-62 | every directory made lies on the path |
| MakeDirs.ParentsFirst | config/makecopy.c:47-62 | directories are made parent before child |
| Rings.InitList | include/ds.h:98-103 | the sentinel alone is a well-formed ring with no thing |
| Rings.AppendLink | include/ds.h:117-123 | the ring is the old one with the link at its end |
| Rings.InsertLink | include/ds.h:125-131 | the ring is the old one with the link right behind the sentinel |
| Rings.RemoveLink | include/ds.h:133-139 | from any position and without the list, the ring is the old one without the link, whose pointers are null |
| Rings.NeighboursBefore | include/ds.h:117-123 | appending changes the neighbours of the sentinel, the new link and the old tail only |
| Rings.NeighboursWith | include/ds.h:125-131 | inserting changes the neighbours of the sentinel, the new link and the old head only |
| Rings.NeighboursWithout | include/ds.h:133-139 | removing makes the link's neighbours each other's neighbours and nobody else's |
| Rings.ListEmpty | include/ds.h:105-106 | true exactly for the sentinel alone |
| Rings.Traverse | include/ds.h:108-115 | from the head along next until the sentinel: every link once, in order |
| Rings.TraverseBack | include/ds.h:111-115 | from the tail along prev: the same in reverse |
| Rings.Lists.constructor | include/ds.h:98-103 | any number of distinct sentinels become empty, disjoint lists |
| Rings.Lists.DoAppend | include/ds.h:117-123 | among any number of disjoint lists, a free link becomes the last of one list, in the contents and in the ring; the others keep theirs |
| Rings.Lists.DoInsert | include/ds.h:125-131 | a free link becomes the first of one list, in the contents and in the ring; the others keep theirs |
| Rings.Lists.DoRemove | include/ds.h:133-139 | given only a link, the list it stands in loses it at its place, whichever that is; the others are untouched |
| Rings.Lists.OnePlace | include/ds.h:88-96 | in a valid state a link stands in one place of one list |
| Rings.Lists.Run | include/ds.h:98-139 | any run of legal appends, inserts and removes over any number of lists leaves well-formed disjoint rings with exactly the contents the same run gives on plain sequences |
| Rings.AppendsInOrder | include/ds.h:117-123 | a run of appends to one list leaves their links in order at its end |
| Rings.RemoveUndoes | include/ds.h:117-139 | removing a link just appended or inserted gives back the lists of before |
| Growable.DoubledValue | include/garray.h:29-35 | the doubled variable after j turns, wrap-around included |
| Growable.NewSizeEnds | include/garray.h:29-35 | the loop ends if and only if the request is at most 2^30 |
| Growable.GrowableArray.constructor | include/garray.h:58-62 | empty, with at least the capacity asked for |
| Growable.GrowableArray.NewSize | include/garray.h:29-35 | max(alloc, 16) doubled the least number of times that reaches the request, hence the base itself or below twice the request |
| Growable.GrowableArray.GuaranteeSize | include/garray.h:41-55 | at least the capacity asked for; every old slot keeps its content; reallocates exactly if the capacity does not exceed the request, copying the whole old capacity |
| Growable.GrowableArray.SetSize | include/garray.h:68-71 | the new size, old slots kept |
| Growable.GrowableArray.Add | include/garray.h:76-80 | the element is at the index returned, which was the size; all other slots keep their content |
| Growable.GrowableArray.Empty | include/garray.h:82-84 | no elements |
| Growable.GrowableArray.Do | include/garray.h:68-84 | an Add counts one more and writes its slot and no other; SetSize and Empty set the size and leave all slots |
| Growable.GrowableArray.Run | include/garray.h:29-84 | over any run of Add, SetSize and Empty within the capacity limit, every slot holds what Add last put there, or what it held before the run |
| Growable.AddsWrite | include/garray.h:76-80 | a run of additions writes its pointers one behind the other, over what was there |
| Growable.AddAll | include/garray.h:29-80 | any n additions to a new array move at most 4n pointers in all, and element i is at index i |
| Stack.PtrStack.constructor | include/garray.h:90 | an empty stack |
| Stack.PtrStack.IsEmpty | include/garray.h:91 | true exactly for the empty stack |
| Stack.PtrStack.Push | include/garray.h:92-99 | the element is on top of the old stack, whether its slot was stale or had to be added |
| Stack.PtrStack.Top | include/garray.h:100 | the last element |
| Stack.PtrStack.Pop | include/garray.h:101 | removes and returns the last element |
| Stack.PtrStack.Reset | include/garray.h:102 | an empty stack |
| Stack.PtrStack.StackSize | include/garray.h:103 | the number of elements |
| Stack.PtrStack.Run | include/garray.h:87-104 | any run of Push, Pop, Top and Reset answers and ends as the same run on an abstract stack; stale slots are never seen |
| Mangle.Mangler.MoveFile | config/mangle.c:21-28 | succeeds exactly if the source is there, the target is not and the system does not fail; then the file has the new name and nothing else changes, otherwise nothing does |
| Mangle.Mangler.WriteFile | config/mangle.c:36-40 | succeeds exactly if the system does not fail; then the script has one line more, otherwise it is unchanged, and so is the directory |
| Mangle.SameName | config/mangle.c:18 | names are compared without regard to the case of ASCII letters, and to nothing else |
| Mangle.Mangler.MangleFile | config/mangle.c:12-43 | a file without a short name, or with its own, is left alone with success. Otherwise the call succeeds if and only if the file is there, the temporary and the short name are free and no system call fails; then it has the short name, nothing else changes, and the script has one line more. On a failure the script is unchanged, and the file is under its long name, or, if the undoing move fails too, the temporary name, or, if only the line failed, the short name |
| Mangle.Mangler.MangleListing | config/mangle.c:79-88 | volume and result of the loop up to its first failure; no file is lost; it succeeds if and only if the script has a line for every file to be renamed, in order; a listing without such files is left alone; and after a success on a scanned directory with an empty script, running the script restores the directory if and only if the listing does not clash |
| Mangle.ScriptLines | config/mangle.c:18 | exactly the files with a nonempty short name other than their own are to be renamed |
| Mangle.Untouched | config/mangle.c:18 | whatever fails, a listing without such files changes nothing |
| Mangle.LineRuns | config/mangle.c:34 | one line of the script: the file is called as before, a file in its way is gone, all others stay |
| Mangle.ReplayConcat | config/mangle.c:34 | the lines run one after the other |
| Mangle.MoveKeepsFiles | config/mangle.c:21-28 | a move that may happen loses no file, overwrites none, and keeps one name for each |
| Mangle.NothingLost | config/mangle.c:79-88 | whatever fails, after any listing the files are the same, none overwritten |
| Mangle.TwoMoves | config/mangle.c:21-28 | by way of the temporary name is the same as straight; the undoing move restores the directory |
| Mangle.RenameCommutes | config/mangle.c:34 | a rename of names no script line mentions commutes with running the script |
| Mangle.RunningStep | config/mangle.c:12-43 | what every step keeps, clash or not: the new names are in the directory, each once, and none is a long name still to come |
| Mangle.RenamedFirst | config/mangle.c:79-88 | the files a run renames are the first of the listing that need it, and all of them when it succeeds |
| Mangle.LoggedStep | config/mangle.c:12-43 | a step whose short name no earlier line renames to keeps the script undoing |
| Mangle.FailedStep | config/mangle.c:21-39 | a failing step leaves exactly what its residue says |
| Mangle.RunUndoable | config/mangle.c:79-88 | over any rest of the listing, without a clash among the files renamed, the script gives back the original directory but for the residue |
| Mangle.Overwrites | config/mangle.c:34 | a line that renames to a name still taken loses a file, whatever the other lines do |
| Mangle.ScriptRestores | config/mangle.c:12-43 | for every scanned directory, listing and pattern of failures: running the lines in order after the run gives back the original directory if and only if no renamed file got a name that one renamed before it had and the run left no residue; without such a clash it gives the original but for the residue, with one it has fewer files |
| Mangle.SuccessRestores | config/mangle.c:79-88 | after a run that reports success, if and only if the listing has no such clash |
| Mangle.NoClashOnDos | config/mangle.c:80 | a listing whose short names have a form that no long name to be renamed has does not clash |
| Mangle.ResidueMeansFault | config/mangle.c:27-40 | a residue needs a fault of the run's last system call |
| Mangle.ClashLosesFile | config/mangle.c:12-43 | the smallest clash, a short name that is the previous file's long name: the run succeeds and the script loses a file |

## Left out

- `jlong_L2D`, `jlong_L2F`, `jlong_D2L`, `jlong_F2L`: IEEE double rounding; reals would not be faithful to it.
- `jlong_ISHL` and shift counts of 64 and more: the word form is not a plain shift there.
- AND, OR, XOR, NOT and the 32-bit conversions: word by word, nothing to prove.
- Capture of a caller's `_a` or `_b` by the macros' locals, and repeated evaluation of arguments: arguments are variables here.
- Jlong.UDivMod: models the header's comment, because the only body in the repository is a stub; the division of `nspr/src/longlong.c` is modelled as Longlong.LlUdivmod.
- Longlong.LlUdivmod: does not model the deliberate crash on a zero divisor; nonzero divisors are required.
- Machine.Run: has forward branches only, so every program ends; loops would need no new fact about the macros.
- Symbolic links and permissions to search a directory: the tree has neither, and a change of directory fails only when the name is no directory.
- Relate.RelatePaths: the buffer sizes (NAME_MAX for one component, the output buffer) are required to suffice, as the code assumes without a test.
- Reverse.ReversePath: absolute input is not modelled; `getcomponent` would enter the root by a name "/", which the code does not intend. The result is required to fit in PATH_MAX. A failing step ends the program in the code and the call here.
- RelateExact.RelateExactly: covers paths without dots; `relatepaths` with dots in `to` is covered by RelateProof.RelateResolves, with dots in `from` it counts a step up for each and is not used so.
- MakeDirs.MakersAgree: covers relative paths of proper names; on others the two makers differ, as MkDirsProof.MakeTextExact and MakeDirs.MakeDirExact say (`mkdirs` fails at dots and doubled slashes behind a missing directory, `MakeDir` passes them; on an absolute path `MakeDir` fails at once).
- MakeDirs.MakeDir: requires a path without forward slashes, which `FlipSlashes` has removed; drive letters are not modelled.
- nsinstall's copy loop, owner, mode and time handling, option parsing, `-l` and `-L`: system-call plumbing.
- Mangle.Mangler.MangleListing: takes the directory listing as it was before the first rename (each entry once, spelled as in the directory), compares names without regard to ASCII case only, and models neither the file system's own short names nor the size of the line buffer; names are written to the script without quoting, and a line is read back as the two names it was written with.
- The creation of `unmangle.bat` and the `del` line at its end (`config/mangle.c:55-70`, `91-98`): they do not touch the files renamed.
- Growable.GrowableArray.NewSize: requires a request of at most 2^30, because the loop does not end otherwise (Growable.NewSizeEnds).
- Growable.GrowableArray.SetSize: requires a size that is not negative; the code does not check for one.
- The destructor, the subscript operators, failing allocation and the overflow of the byte count of a copy: memory is unbounded and collected here.
- Stack.PtrStack.Run: `Empty` and `SetSize` inherited from the array are not among the operations; called on a stack they break the tie between its top index and the array's size. The array is a field, as there is no inheritance here.
- DSArray, DS_NewLink, DS_FindLink and arenas of `include/ds.h`, and the templates of `include/garray.h`: declared only, or wrappers.
