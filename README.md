# MSI uninstall-by-name selection and vlmcsd software AES, in Dafny

This project models two independent pieces of code and proves properties
of them.

**The "uninstall MSI product by name" action of WSUS Package Publisher's
custom update engine.** The action reads a `;`-separated list of
application-name patterns and a `;`-separated list of exception patterns.
It takes the inventory of installed Windows Installer products and picks
every product whose name matches a target pattern and no exception
pattern. A pattern with a `%` (any run of characters) or a `_` (one
character) is matched as an anchored, case-insensitive regular
expression; any other pattern is compared with the name ignoring case.
When `DontUninstallIfNoException` is set, nothing is uninstalled unless
some installed product matches an exception. In the selection, an
exception that matches only ends the loop over the exceptions (line 166):
the remaining target patterns are still tried for that product, and each
of them is turned down by the same exception, so the product is never
selected. Only the `break` after a product is added (line 173) ends the
loop over the targets. The model keeps both loops as the code has them.
The product code is reported
in braces and stripped of them. The exit code of `msiexec` is reported as
a success (0), a success needing a restart (3010) or an error.

- `msi_patterns.dfy` (module `MsiPatterns`) holds the splitting of the
  pattern lists, the translation of a pattern into a regular expression
  and the matcher. The joker branch matches the translated pattern, and
  that match is proved to accept exactly the names the pattern's own
  jokers cover.
- `msi_uninstall.dfy` (module `MsiUninstall`) holds the product
  selection, the exception gate, the product-code formatting and the
  exit-code switch.

The inventory is an input `seq<Product>`.

**The software AES of vlmcsd (a KMS emulator).** It holds:

- the Rijndael block cipher with 16-byte blocks: with a 16-byte key it is
  AES-128 of FIPS 197 (10 rounds); with the 20-byte key of protocol
  version 4 it is Rijndael with five key words and 11 rounds, a key size
  FIPS 197 does not define, whose rounds and key expansion follow the
  FIPS 197 algorithms with Nk = 5;
- the protocol version 6 change to the key schedule;
- CBC encryption with the padding of RFC 5652, section 6.3;
- CBC decryption;
- the MAC of protocol version 4: a plain CBC-MAC over the message padded
  with 0x80 and zeros, under a fixed 20-byte key.

Every C routine works in place on byte buffers, so each one is a Dafny
method on an `array<bv8>`. The expanded key is the `array<bv32>` field
`Key` of the class `AesCtx`, next to the field `rounds`. Each method is
proved against a specification function on sequences. The inverse pairs
and round trips are proved about those functions.

- `aes_tables.dfy`: the S-box tables, the round constants and the three
  protocol keys.
- `aes_field.dfy`: GF(2^8) arithmetic, the little-endian byte lanes of a
  32-bit word and the word macros `Mul2` … `MulE`.
- `aes_spec.dfy`: the block transformations and the cipher as functions
  on 16-byte sequences.
- `aes_key.dfy`: the key expansion and the version 6 tweak.
- `aes_modes.dfy`: padding, CBC and the MAC as functions.
- `aes.dfy`: the imperative routines, including the class `AesCtx`.
- `wrappers.dfy`: the `Option` type.

## Model

Source paths: `UninstallMsiProductByNameAction.cs` is
`wsus-package-publisher/Code/CustomUpdateEngine/Actions/UninstallMsiProductByNameAction.cs`,
and `crypto.c` is `vlmcsd-beta/vlmcsd/src/crypto.c`.

| member | source | states |
|---|---|---|
| MsiPatterns.Split | wsus-package-publisher/Code/CustomUpdateEngine/Actions/UninstallMsiProductByNameAction.cs:186 | `String.Split` on `';'` before empty entries are dropped: there is always at least one piece |
| MsiPatterns.RemoveEmpty | wsus-package-publisher/Code/CustomUpdateEngine/Actions/UninstallMsiProductByNameAction.cs:186 | `RemoveEmptyEntries`: no piece is longer than the input list, and every kept piece is non-empty and comes from the input |
| MsiPatterns.RemoveEmptyIsOrderedSubsequence | wsus-package-publisher/Code/CustomUpdateEngine/Actions/UninstallMsiProductByNameAction.cs:186 | `RemoveEmptyEntries` keeps exactly the non-empty pieces, in their order: the result is the input at an increasing list of indices, and an index is in that list exactly when its piece is non-empty |
| MsiPatterns.RemoveEmptyAppend | wsus-package-publisher/Code/CustomUpdateEngine/Actions/UninstallMsiProductByNameAction.cs:186 | dropping empty pieces distributes over concatenation of piece lists |
| MsiPatterns.SplitHasNoSeparator | wsus-package-publisher/Code/CustomUpdateEngine/Actions/UninstallMsiProductByNameAction.cs:186 | no piece of a split contains `';'` |
| MsiPatterns.JoinSplit | wsus-package-publisher/Code/CustomUpdateEngine/Actions/UninstallMsiProductByNameAction.cs:186 | joining the pieces with `';'` gives the input back: the pieces are exactly the text between separators, in order |
| MsiPatterns.SplitJoin | wsus-package-publisher/Code/CustomUpdateEngine/Actions/UninstallMsiProductByNameAction.cs:186 | splitting the `';'`-join of separator-free pieces gives those pieces back |
| MsiPatterns.SplitNewPiece | wsus-package-publisher/Code/CustomUpdateEngine/Actions/UninstallMsiProductByNameAction.cs:186 | a `';'` followed by separator-free text adds exactly that text as one new piece |
| MsiPatterns.SplitSeparator | wsus-package-publisher/Code/CustomUpdateEngine/Actions/UninstallMsiProductByNameAction.cs:186 | a trailing `';'` opens a new, empty piece |
| MsiPatterns.SplitPlainChar | wsus-package-publisher/Code/CustomUpdateEngine/Actions/UninstallMsiProductByNameAction.cs:186 | a trailing character other than `';'` extends the last piece |
| MsiPatterns.SplitAppendPlain | wsus-package-publisher/Code/CustomUpdateEngine/Actions/UninstallMsiProductByNameAction.cs:186 | appending separator-free text extends the last piece by that text |
| MsiPatterns.NamesOf | wsus-package-publisher/Code/CustomUpdateEngine/Actions/UninstallMsiProductByNameAction.cs:182-193 | every name in a pattern list is non-empty and contains no `';'` |
| MsiPatterns.SplitApplicationNames | wsus-package-publisher/Code/CustomUpdateEngine/Actions/UninstallMsiProductByNameAction.cs:182-193 | the loop copying the split array returns the non-empty `';'`-separated pieces of the text, in text order |
| MsiPatterns.SplitNamesOfJoin | wsus-package-publisher/Code/CustomUpdateEngine/Actions/UninstallMsiProductByNameAction.cs:182-193 | for a `';'`-joined list of separator-free names, the result is that list with its empty names dropped |
| MsiPatterns.GetRegExpPattern | wsus-package-publisher/Code/CustomUpdateEngine/Actions/UninstallMsiProductByNameAction.cs:221-224 | no `%` and no `_` survives the translation into a regular expression |
| MsiPatterns.ReplaceAll | wsus-package-publisher/Code/CustomUpdateEngine/Actions/UninstallMsiProductByNameAction.cs:223 | `String.Replace`: the replaced character is gone unless the replacement holds it, and nothing new appears beyond the replacement's characters |
| MsiPatterns.TranslateAtOnce | wsus-package-publisher/Code/CustomUpdateEngine/Actions/UninstallMsiProductByNameAction.cs:223 | the two chained `Replace` calls are one left-to-right pass: `%` becomes `.*` and `_` becomes `.` |
| MsiPatterns.RegExpPatternRoundTrip | wsus-package-publisher/Code/CustomUpdateEngine/Actions/UninstallMsiProductByNameAction.cs:221-224 | for a pattern without `.` and `*` the translation loses nothing: reading `.*` as `%` and `.` as `_` gives the pattern back |
| MsiPatterns.WildMatchIsAnchoredMatch | wsus-package-publisher/Code/CustomUpdateEngine/Actions/UninstallMsiProductByNameAction.cs:199-201 | for a pattern without `.` and `*`, the anchored match of `GetRegExpPattern(pattern)` accepts a name exactly when the pattern's own jokers cover it (`%` any run of characters, `_` one character, other characters equal ignoring case) |
| MsiPatterns.PatternMatchApplicationName | wsus-package-publisher/Code/CustomUpdateEngine/Actions/UninstallMsiProductByNameAction.cs:195-219 | a pattern holding `%` or `_` goes to the regular-expression branch, any other to `String.Compare` ignoring case; either way the name matches exactly when the pattern's jokers and characters cover it, and in the joker branch also when they cover the name minus a final line feed (proved through WildMatchIsAnchoredMatch and LiteralPatternMatch; NoPercentFixesLength and PercentSkipsAnyPrefix describe the cover) |
| MsiPatterns.LiteralPatternMatch | wsus-package-publisher/Code/CustomUpdateEngine/Actions/UninstallMsiProductByNameAction.cs:207-211 | for a pattern without jokers, the joker matcher accepts a name exactly when the name equals the pattern ignoring case, so both branches of the matcher agree there |
| MsiPatterns.NoPercentFixesLength | wsus-package-publisher/Code/CustomUpdateEngine/Actions/UninstallMsiProductByNameAction.cs:199-205 | the match is anchored at both ends: a pattern of literals and `_` only matches names of exactly its length, so each `_` takes one character |
| MsiPatterns.PercentSkipsAnyPrefix | wsus-package-publisher/Code/CustomUpdateEngine/Actions/UninstallMsiProductByNameAction.cs:199-205 | a leading `%` matches exactly when some prefix of the name (with no line feed) can be skipped and the rest of the pattern matches the remainder |
| MsiPatterns.PercentExample | wsus-package-publisher/Code/CustomUpdateEngine/Actions/UninstallMsiProductByNameAction.cs:199-205 | "Foo%Bar" matches "Foo123Bar" |
| MsiPatterns.UnderscoreExample | wsus-package-publisher/Code/CustomUpdateEngine/Actions/UninstallMsiProductByNameAction.cs:199-205 | "Foo_Bar" matches "FooXBar" |
| MsiPatterns.UnderscoreNeedsOneCharacter | wsus-package-publisher/Code/CustomUpdateEngine/Actions/UninstallMsiProductByNameAction.cs:199-205 | "Foo_Bar" does not match "FooBar" |
| MsiUninstall.IsAtLeastOneExceptionIsInstalled | wsus-package-publisher/Code/CustomUpdateEngine/Actions/UninstallMsiProductByNameAction.cs:122-140 | the nested scan with early return answers true exactly when some installed product matches some exception pattern, so it answers false for an empty inventory or an empty exception list |
| MsiUninstall.GetProductsToUninstall | wsus-package-publisher/Code/CustomUpdateEngine/Actions/UninstallMsiProductByNameAction.cs:147-180 | the nested loops with their two `break`s return exactly the inventory's qualifying products (a target matches, no exception matches), in inventory order, each entry once |
| MsiUninstall.MatchesNoException | wsus-package-publisher/Code/CustomUpdateEngine/Actions/UninstallMsiProductByNameAction.cs:159-168 | the exception loop leaves `uninstallIt` true exactly when the name matches no exception pattern |
| MsiUninstall.SelectedIsOrderedSubsequence | wsus-package-publisher/Code/CustomUpdateEngine/Actions/UninstallMsiProductByNameAction.cs:153-177 | the selection is the inventory at strictly increasing positions, and a position is among them exactly when its product qualifies: order kept, no entry twice, nothing qualifying missed |
| MsiUninstall.SelectedAreSound | wsus-package-publisher/Code/CustomUpdateEngine/Actions/UninstallMsiProductByNameAction.cs:153-177 | every selected product is installed, matches at least one target pattern and matches no exception pattern |
| MsiUninstall.NoExceptionsSelectsAllMatches | wsus-package-publisher/Code/CustomUpdateEngine/Actions/UninstallMsiProductByNameAction.cs:153-177 | without exception patterns every installed product matching a target is selected |
| MsiUninstall.Run | wsus-package-publisher/Code/CustomUpdateEngine/Actions/UninstallMsiProductByNameAction.cs:74-84 | the products handed to `UninstallProduct`, in order, or none when the gate skips the selection, are those of the uninstall plan |
| MsiUninstall.UninstallPlanGate | wsus-package-publisher/Code/CustomUpdateEngine/Actions/UninstallMsiProductByNameAction.cs:74-84 | the selection is skipped exactly when `DontUninstallIfNoException` is set and no installed product matches an exception; it always runs when the flag is clear; it never runs with the flag set and an empty exception list; nothing it picks matches an exception |
| MsiUninstall.GetFormattedIdentifyingNumber | wsus-package-publisher/Code/CustomUpdateEngine/Actions/UninstallMsiProductByNameAction.cs:142-145 | `Substring(1, 36)` succeeds exactly when the input has at least 37 characters (otherwise the .NET call throws) and then gives the 36 characters after the first |
| MsiUninstall.BracesRoundTrip | wsus-package-publisher/Code/CustomUpdateEngine/Actions/UninstallMsiProductByNameAction.cs:142-145 | stripping the braces of `{GUID}` gives the 36-character GUID, and bracing the stripped form of a braced 38-character code gives the code back |
| MsiUninstall.ClassifyExitCode | wsus-package-publisher/Code/CustomUpdateEngine/Actions/UninstallMsiProductByNameAction.cs:257-268 | exit code 0 is a success, 3010 a success needing a restart, and any other code an error carrying that code |
| MsiUninstall.ClassifyExitCodeRoundTrip | wsus-package-publisher/Code/CustomUpdateEngine/Actions/UninstallMsiProductByNameAction.cs:257-268 | the classification loses nothing: the exit code can be read back from the outcome, and every outcome the switch can produce is recovered from its code |
| AesTables.SBoxInverse | vlmcsd-beta/vlmcsd/src/crypto.c:202-219 | the table SBoxR inverts the table SBox on every byte, and SBox inverts SBoxR |
| AesTables.SBoxRUndoesSBoxQuarter0 | vlmcsd-beta/vlmcsd/src/crypto.c:202-219 | SBoxR undoes SBox on the bytes 0x00 to 0x3F |
| AesTables.SBoxRUndoesSBoxQuarter1 | vlmcsd-beta/vlmcsd/src/crypto.c:202-219 | SBoxR undoes SBox on the bytes 0x40 to 0x7F |
| AesTables.SBoxRUndoesSBoxQuarter2 | vlmcsd-beta/vlmcsd/src/crypto.c:202-219 | SBoxR undoes SBox on the bytes 0x80 to 0xBF |
| AesTables.SBoxRUndoesSBoxQuarter3 | vlmcsd-beta/vlmcsd/src/crypto.c:202-219 | SBoxR undoes SBox on the bytes 0xC0 to 0xFF |
| AesTables.SBoxUndoesSBoxRQuarter0 | vlmcsd-beta/vlmcsd/src/crypto.c:19-36 | SBox undoes SBoxR on the bytes 0x00 to 0x3F |
| AesTables.SBoxUndoesSBoxRQuarter1 | vlmcsd-beta/vlmcsd/src/crypto.c:19-36 | SBox undoes SBoxR on the bytes 0x40 to 0x7F |
| AesTables.SBoxUndoesSBoxRQuarter2 | vlmcsd-beta/vlmcsd/src/crypto.c:19-36 | SBox undoes SBoxR on the bytes 0x80 to 0xBF |
| AesTables.SBoxUndoesSBoxRQuarter3 | vlmcsd-beta/vlmcsd/src/crypto.c:19-36 | SBox undoes SBoxR on the bytes 0xC0 to 0xFF |
| AesField.XTimeIsReduction | vlmcsd-beta/vlmcsd/src/crypto.c:51 | the byte step of `Mul2` is xtime of section 4.2.1 of FIPS 197: a shift left, reduced by 0x11B when the top bit was set |
| AesField.GMul02 | vlmcsd-beta/vlmcsd/src/crypto.c:51 | multiplying by {02} in GF(2^8) is xtime |
| AesField.GMul03 | vlmcsd-beta/vlmcsd/src/crypto.c:52 | multiplying by {03} is xtime plus the byte itself |
| AesField.GMul09 | vlmcsd-beta/vlmcsd/src/crypto.c:55 | multiplying by {09} is xtime three times plus the byte |
| AesField.GMul0B | vlmcsd-beta/vlmcsd/src/crypto.c:56 | multiplying by {0b} is {08} plus {03} |
| AesField.GMul0D | vlmcsd-beta/vlmcsd/src/crypto.c:57 | multiplying by {0d} is {08} plus {04} plus the byte |
| AesField.GMul0E | vlmcsd-beta/vlmcsd/src/crypto.c:58 | multiplying by {0e} is {08} plus {04} plus {02} |
| AesField.Mul2Bytes | vlmcsd-beta/vlmcsd/src/crypto.c:51 | `Mul2` multiplies each of the four bytes of a word by x, without carries between bytes |
| AesField.Mul3Bytes | vlmcsd-beta/vlmcsd/src/crypto.c:52 | `Mul3` multiplies each byte by {03} |
| AesField.Mul8Bytes | vlmcsd-beta/vlmcsd/src/crypto.c:54 | `Mul8` multiplies each byte by {08} |
| AesField.Mul9Bytes | vlmcsd-beta/vlmcsd/src/crypto.c:55 | `Mul9` multiplies each byte by {09} |
| AesField.MulBBytes | vlmcsd-beta/vlmcsd/src/crypto.c:56 | `MulB` multiplies each byte by {0b} |
| AesField.MulDBytes | vlmcsd-beta/vlmcsd/src/crypto.c:57 | `MulD` multiplies each byte by {0d} |
| AesField.MulEBytes | vlmcsd-beta/vlmcsd/src/crypto.c:58 | `MulE` multiplies each byte by {0e} |
| AesField.MixWordByte0 | vlmcsd-beta/vlmcsd/src/crypto.c:152 | byte 0 of the MixColumns word formula is row 0 of the matrix product of section 5.1.3 of FIPS 197 |
| AesField.MixWordByte1 | vlmcsd-beta/vlmcsd/src/crypto.c:152 | byte 1 of the formula is row 1 of that product |
| AesField.MixWordByte2 | vlmcsd-beta/vlmcsd/src/crypto.c:152 | byte 2 of the formula is row 2 of that product |
| AesField.MixWordByte3 | vlmcsd-beta/vlmcsd/src/crypto.c:152 | byte 3 of the formula is row 3 of that product |
| AesField.MixWordIsMixColumn | vlmcsd-beta/vlmcsd/src/crypto.c:146-154 | on the column held in a word, the word formula of MixColumns computes the MixColumns column of FIPS 197 |
| AesField.MixWordRByte0 | vlmcsd-beta/vlmcsd/src/crypto.c:71 | byte 0 of the MixColumnsR word formula is row 0 of the InvMixColumns product of section 5.3.3 of FIPS 197 |
| AesField.MixWordRByte1 | vlmcsd-beta/vlmcsd/src/crypto.c:71 | byte 1 of the formula is row 1 of that product |
| AesField.MixWordRByte2 | vlmcsd-beta/vlmcsd/src/crypto.c:71 | byte 2 of the formula is row 2 of that product |
| AesField.MixWordRByte3 | vlmcsd-beta/vlmcsd/src/crypto.c:71 | byte 3 of the formula is row 3 of that product |
| AesField.MixWordRIsInvMixColumn | vlmcsd-beta/vlmcsd/src/crypto.c:61-74 | on the column held in a word, the word formula of MixColumnsR computes InvMixColumns |
| AesField.InvMixRowOfMixRows | vlmcsd-beta/vlmcsd/src/crypto.c:61-74 | the inverse matrix applied to the four mixed rows of a column gives back each original byte |
| AesField.MixWordRUndoesByte0 | vlmcsd-beta/vlmcsd/src/crypto.c:61-74 | the MixColumnsR formula after the MixColumns formula restores byte 0 of the word |
| AesField.MixWordRUndoesByte1 | vlmcsd-beta/vlmcsd/src/crypto.c:61-74 | the same for byte 1 |
| AesField.MixWordRUndoesByte2 | vlmcsd-beta/vlmcsd/src/crypto.c:61-74 | the same for byte 2 |
| AesField.MixWordRUndoesByte3 | vlmcsd-beta/vlmcsd/src/crypto.c:61-74 | the same for byte 3 |
| AesField.MixWordRUndoesMixWord | vlmcsd-beta/vlmcsd/src/crypto.c:61-74 | the MixColumnsR word formula undoes the MixColumns formula on every word |
| AesSpec.XorBlockTwice | vlmcsd-beta/vlmcsd/src/crypto.c:39-47 | adding the same `in` block twice restores `out` |
| AesSpec.XorBlockZero | vlmcsd-beta/vlmcsd/src/crypto.c:39-47 | adding a block of zeros leaves `out` unchanged |
| AesSpec.SubBytesRUndoesSubBytes | vlmcsd-beta/vlmcsd/src/crypto.c:252-260 | SubBytesR undoes SubBytes on every 16-byte block |
| AesSpec.SubBytesUndoesSubBytesR | vlmcsd-beta/vlmcsd/src/crypto.c:124-130 | SubBytes undoes SubBytesR on every block |
| AesSpec.SBoxRUndoesSBox | vlmcsd-beta/vlmcsd/src/crypto.c:202-219 | `SBoxR[SBox[x]] == x` for every byte |
| AesSpec.SBoxUndoesSBoxR | vlmcsd-beta/vlmcsd/src/crypto.c:19-36 | `SBox[SBoxR[y]] == y` for every byte |
| AesSpec.ShiftIndex | vlmcsd-beta/vlmcsd/src/crypto.c:141 | the index `(i + ((i & 3) << 2)) & 0xf` stays within the block |
| AesSpec.ShiftIndexR | vlmcsd-beta/vlmcsd/src/crypto.c:248 | the index `(i - ((i & 3) << 2)) & 0xf` stays within the block |
| AesSpec.ShiftIndexRUndoesShiftIndex | vlmcsd-beta/vlmcsd/src/crypto.c:240-249 | the ShiftRowsR index map undoes the ShiftRows map, so both are permutations of 0..15 |
| AesSpec.ShiftIndexUndoesShiftIndexR | vlmcsd-beta/vlmcsd/src/crypto.c:133-143 | the ShiftRows index map undoes the ShiftRowsR map |
| AesSpec.ShiftIndexIsFips | vlmcsd-beta/vlmcsd/src/crypto.c:133-143 | with byte r + 4c in row r of column c, ShiftRows takes row r from column c + r (mod 4), as section 5.1.2 of FIPS 197 says |
| AesSpec.ShiftIndexRIsFips | vlmcsd-beta/vlmcsd/src/crypto.c:240-249 | ShiftRowsR takes row r from column c - r (mod 4), as section 5.3.1 of FIPS 197 says |
| AesSpec.ShiftRowsRUndoesShiftRows | vlmcsd-beta/vlmcsd/src/crypto.c:240-249 | ShiftRowsR undoes ShiftRows on every block |
| AesSpec.ShiftRowsUndoesShiftRowsR | vlmcsd-beta/vlmcsd/src/crypto.c:133-143 | ShiftRows undoes ShiftRowsR on every block |
| AesSpec.RowBelowIsFips | vlmcsd-beta/vlmcsd/src/crypto.c:146-154 | the neighbour index used by the column mixing stays in the same column and moves k rows down, cyclically |
| AesSpec.MixColumnsOfColumn | vlmcsd-beta/vlmcsd/src/crypto.c:146-154 | column c of MixColumns is column c mixed by the matrix of section 5.1.3 of FIPS 197 |
| AesSpec.MixColumnsROfColumn | vlmcsd-beta/vlmcsd/src/crypto.c:61-74 | column c of MixColumnsR is column c mixed by the inverse matrix of section 5.3.3 of FIPS 197 |
| AesSpec.MixColumnsRUndoesMixColumns | vlmcsd-beta/vlmcsd/src/crypto.c:61-74 | MixColumnsR undoes MixColumns on every block |
| AesSpec.RoundKeyColumn | vlmcsd-beta/vlmcsd/src/crypto.c:49 | the round key at `&Key[k]` is the four words k to k + 3, each stored little-endian as a column |
| AesSpec.AddRoundKeyTwice | vlmcsd-beta/vlmcsd/src/crypto.c:49 | adding the same round key twice restores the block |
| AesSpec.EncryptRoundsLast | vlmcsd-beta/vlmcsd/src/crypto.c:161-172 | the pass that stops the loop (round rounds - 1) is AddRoundKey, SubBytes, ShiftRows and then the final AddRoundKey with `Key[rounds << 2]`, with no MixColumns |
| AesSpec.EncryptRoundsNext | vlmcsd-beta/vlmcsd/src/crypto.c:161-170 | a pass that does not stop applies AddRoundKey, SubBytes, ShiftRows and MixColumns and moves on to the next round |
| AesSpec.EncryptRoundsFromStart | vlmcsd-beta/vlmcsd/src/crypto.c:157-173 | running the loop from round 0 on the plaintext is the FIPS 197 cipher: rounds - 1 full rounds, then a round without MixColumns, then the last round key |
| AesSpec.EncryptRoundsFromState | vlmcsd-beta/vlmcsd/src/crypto.c:157-173 | finishing the loop from the state at the start of any round r gives the same ciphertext as finishing it from any later round's state |
| AesSpec.EncryptRoundsLastState | vlmcsd-beta/vlmcsd/src/crypto.c:157-173 | the last round applied to the state at its start gives the ciphertext |
| AesSpec.EncryptRoundsStateStep | vlmcsd-beta/vlmcsd/src/crypto.c:161-170 | one full round takes the state at the start of round r to the state at the start of round r + 1 |
| AesSpec.DecryptRoundsNext | vlmcsd-beta/vlmcsd/src/crypto.c:294-303 | a pass of the decryption loop that does not stop applies ShiftRowsR, SubBytesR, AddRoundKey and MixColumnsR and moves down one round |
| AesSpec.DecryptRoundsUndoesRounds | vlmcsd-beta/vlmcsd/src/crypto.c:288-304 | undoing rounds r down to 0 inverts the first r + 1 encryption rounds |
| AesSpec.DecryptUndoesEncrypt | vlmcsd-beta/vlmcsd/src/crypto.c:288-304 | under the same key schedule, whether tweaked or not, AesDecryptBlock gives back every block that AesEncryptBlock encrypted |
| AesSpec.DecryptBlockStart | vlmcsd-beta/vlmcsd/src/crypto.c:292 | decryption first removes the last round key that encryption added |
| AesKeySchedule.Bswap32Bytes | vlmcsd-beta/vlmcsd/src/crypto.c:107 | `BE32` on a little-endian machine reverses the four bytes of a word |
| AesKeySchedule.Bswap32Twice | vlmcsd-beta/vlmcsd/src/crypto.c:107 | the two `BE32` calls cancel out on the word they wrap |
| AesKeySchedule.SubDwordBytes | vlmcsd-beta/vlmcsd/src/crypto.c:77-85 | SubDword puts each of the four bytes through SBox |
| AesKeySchedule.ScheduleTempByte0 | vlmcsd-beta/vlmcsd/src/crypto.c:107 | byte 0 of the new temp is SBox of byte 1 of the previous word, plus the top byte of the round constant |
| AesKeySchedule.ScheduleTempByte1 | vlmcsd-beta/vlmcsd/src/crypto.c:107 | byte 1 of the new temp is SBox of byte 2, plus byte 2 of the round constant |
| AesKeySchedule.ScheduleTempByte2 | vlmcsd-beta/vlmcsd/src/crypto.c:107 | byte 2 of the new temp is SBox of byte 3, plus byte 1 of the round constant |
| AesKeySchedule.ScheduleTempByte3 | vlmcsd-beta/vlmcsd/src/crypto.c:107 | byte 3 of the new temp is SBox of byte 0, plus the low byte of the round constant |
| AesKeySchedule.RConIsPowerOfX | vlmcsd-beta/vlmcsd/src/crypto.c:93-95 | `RCon[j]` holds x^(j-1) of GF(2^8) in its top byte and zeros elsewhere |
| AesKeySchedule.ScheduleTempIsFips | vlmcsd-beta/vlmcsd/src/crypto.c:104-107 | at a multiple of the key length the new temp is SubWord(RotWord(prev)) plus Rcon of section 5.2 of FIPS 197 |
| AesKeySchedule.Rounds | vlmcsd-beta/vlmcsd/src/crypto.c:90-91 | the number of rounds less 6 is the number of whole 4-byte words in the key, so 10 for 16 to 19 bytes and 11 for 20 to 23 bytes |
| AesKeySchedule.RConIndex | vlmcsd-beta/vlmcsd/src/crypto.c:107 | `RCon[i / nk]` stays inside the table for every word the loop computes |
| AesKeySchedule.KeyWords | vlmcsd-beta/vlmcsd/src/crypto.c:100-110 | the expansion up to n gives exactly n words |
| AesKeySchedule.KeyWordsPrefix | vlmcsd-beta/vlmcsd/src/crypto.c:102-110 | computing more words never changes the words already computed |
| AesKeySchedule.KeyWordsPrefixSlice | vlmcsd-beta/vlmcsd/src/crypto.c:102-110 | the first m words of a longer expansion are the expansion up to m |
| AesKeySchedule.KeyWordsStart | vlmcsd-beta/vlmcsd/src/crypto.c:100 | the expanded key starts with the key's own words, read little-endian |
| AesKeySchedule.KeyWordsRecurrence | vlmcsd-beta/vlmcsd/src/crypto.c:102-110 | every word past the key is the word nk places earlier plus the previous word, transformed at each multiple of nk, as in section 5.2 of FIPS 197 |
| AesKeySchedule.KeyWordsSteps | vlmcsd-beta/vlmcsd/src/crypto.c:102-110 | that recurrence holds for every word past the key at once |
| AesKeySchedule.V6Tweak | vlmcsd-beta/vlmcsd/src/crypto.c:112-119 | the version 6 tweak keeps the length of the schedule |
| AesKeySchedule.V6TweakOf | vlmcsd-beta/vlmcsd/src/crypto.c:112-119 | a schedule that differs from the plain one only in words 16, 24 and 32, changed by 0x73, 0x09 and 0xE4, is the tweaked schedule |
| AesKeySchedule.V6TweakWord | vlmcsd-beta/vlmcsd/src/crypto.c:112-119 | every word of the tweaked schedule is the plain word plus its tweak byte, which is zero except at words 16, 24 and 32 |
| AesKeySchedule.V6TweakBytes | vlmcsd-beta/vlmcsd/src/crypto.c:114-118 | the tweak changes only the lowest byte of each word, which is byte `4 * 16` (and `6 * 16`, `8 * 16`) of the key array |
| AesKeySchedule.KeySchedule | vlmcsd-beta/vlmcsd/src/crypto.c:88-120 | AesInitKey fills (rounds + 1) * 4 words: 44 for a 16-byte key and 48 for a 20-byte key |
| AesModes.DecryptorInvertsEncryptor | vlmcsd-beta/vlmcsd/src/crypto.c:288-304 | with the same context, the block decryption undoes the block encryption on every block |
| AesModes.PadLength | vlmcsd-beta/vlmcsd/src/crypto.c:267 | `(~len & 15) + 1` is 16 - len % 16, a pad from 1 to 16 |
| AesModes.Pad | vlmcsd-beta/vlmcsd/src/crypto.c:267-274 | the padded length is the length plus the pad |
| AesModes.PadBytes | vlmcsd-beta/vlmcsd/src/crypto.c:272 | `memset(data + len, pad, pad)` writes pad bytes, each of value pad |
| AesModes.PadShape | vlmcsd-beta/vlmcsd/src/crypto.c:267-274 | the padded data is a whole number of blocks, starts with the data, and every added byte holds the pad length |
| AesModes.PadIsRemovable | vlmcsd-beta/vlmcsd/src/crypto.c:267-274 | the last byte of the padded data is between 1 and 16, and dropping that many bytes gives the data back |
| AesModes.ChainTwice | vlmcsd-beta/vlmcsd/src/crypto.c:276 | adding the previous block (or the iv, or nothing for a null iv) twice restores the block |
| AesModes.CbcEncrypt | vlmcsd-beta/vlmcsd/src/crypto.c:276-284 | CBC encryption keeps the length |
| AesModes.CbcDecrypt | vlmcsd-beta/vlmcsd/src/crypto.c:311-318 | CBC decryption keeps the length |
| AesModes.CbcEncryptChains | vlmcsd-beta/vlmcsd/src/crypto.c:279-284 | every ciphertext block after the first is the encryption of the plaintext block plus the ciphertext block before it, the equation of section 6.2 of NIST SP 800-38A |
| AesModes.CbcEncryptBlockAt | vlmcsd-beta/vlmcsd/src/crypto.c:276-284 | each ciphertext block is the encryption of its plaintext block chained with the previous ciphertext block (or the iv) |
| AesModes.CbcEncryptLast | vlmcsd-beta/vlmcsd/src/crypto.c:276-284 | the blocks before the last are the encryption of the plaintext before its last block, and the last block chains on them |
| AesModes.CbcEncryptOfBlocks | vlmcsd-beta/vlmcsd/src/crypto.c:276-284 | encrypting one more block appends its chained encryption |
| AesModes.CbcDecryptChains | vlmcsd-beta/vlmcsd/src/crypto.c:311-315 | every plaintext block after the first is the decryption of the ciphertext block plus the ciphertext block before it |
| AesModes.CbcDecryptBlockAt | vlmcsd-beta/vlmcsd/src/crypto.c:311-318 | each plaintext block depends only on its ciphertext block and the one before it (or the iv) |
| AesModes.CbcDecryptLast | vlmcsd-beta/vlmcsd/src/crypto.c:311-318 | the plaintext before the last block is the decryption of the ciphertext before it, and the last block is unchained from its predecessor |
| AesModes.CbcDecryptOfBlocks | vlmcsd-beta/vlmcsd/src/crypto.c:311-318 | decrypting one more block appends its unchained decryption |
| AesModes.CbcDecryptUndoesEncrypt | vlmcsd-beta/vlmcsd/src/crypto.c:307-319 | for any block cipher and its inverse, CBC decryption with the same iv undoes CBC encryption |
| AesModes.CbcRoundTripStep | vlmcsd-beta/vlmcsd/src/crypto.c:307-319 | the CBC round trip on some blocks extends to one more block |
| AesModes.AesCbcRoundTrip | vlmcsd-beta/vlmcsd/src/crypto.c:263-319 | AesDecryptCbc after AesEncryptCbc with the same context and iv gives back the padded data, which is a whole number of blocks |
| AesModes.CbcMacStep | vlmcsd-beta/vlmcsd/src/crypto.c:188-192 | one pass of the MAC loop adds the next block to the MAC and encrypts it |
| AesModes.CbcMacIsLastCbcBlock | vlmcsd-beta/vlmcsd/src/crypto.c:188-192 | the MAC is the last block of the CBC encryption of the same blocks under a zero iv |
| AesModes.CmacBlocks | vlmcsd-beta/vlmcsd/src/crypto.c:184-188 | the blocks the MAC reads are a whole number of blocks, longer than the message by 1 to 16 bytes |
| AesModes.CmacBlocksShape | vlmcsd-beta/vlmcsd/src/crypto.c:184-188 | those blocks are `MessageSize / 16 + 1` blocks: the message, the byte 0x80, then zeros |
| Aes.OutsideTrans | vlmcsd-beta/vlmcsd/src/crypto.c:157-173 | agreeing outside a block is transitive, so a run of in-place steps on the block leaves the rest of the buffer alone |
| Aes.StoreWord | vlmcsd-beta/vlmcsd/src/crypto.c:45 | a DWORD store through a cast pointer writes the four bytes of the word, lowest first, and nothing else |
| Aes.XorBlock | vlmcsd-beta/vlmcsd/src/crypto.c:39-47 | `out` becomes `out` plus `in`, byte by byte, and no byte outside the 16 of `out` changes |
| Aes.XorWordAt | vlmcsd-beta/vlmcsd/src/crypto.c:45 | one pass of the XorBlock loop adds DWORD i of `in` to DWORD i of `out` and keeps every other byte |
| Aes.SubstituteBytes | vlmcsd-beta/vlmcsd/src/crypto.c:128-129 | the byte loop of SubBytes and SubBytesR replaces each byte of the block through the table and keeps the rest of the buffer |
| Aes.SubBytes | vlmcsd-beta/vlmcsd/src/crypto.c:124-130 | the block becomes SubBytes of the old block, and nothing else changes |
| Aes.SubBytesR | vlmcsd-beta/vlmcsd/src/crypto.c:252-260 | the block becomes SubBytesR of the old block, and nothing else changes |
| Aes.ShiftRows | vlmcsd-beta/vlmcsd/src/crypto.c:133-143 | the block becomes ShiftRows of the old block (read from the copy `bIn`), and nothing else changes |
| Aes.ShiftRowsR | vlmcsd-beta/vlmcsd/src/crypto.c:240-249 | the block becomes ShiftRowsR of the old block, and nothing else changes |
| Aes.UpdateWords | vlmcsd-beta/vlmcsd/src/crypto.c:149-153 | the word loop shared by MixColumns, MixColumnsR and AddRoundKey rewrites the four words of the block and nothing else |
| Aes.UpdateWordAt | vlmcsd-beta/vlmcsd/src/crypto.c:151-152 | one pass of that loop rewrites word i and keeps every other byte |
| Aes.MixColumns | vlmcsd-beta/vlmcsd/src/crypto.c:146-154 | the block becomes MixColumns of the old block, and nothing else changes |
| Aes.MixColumnsR | vlmcsd-beta/vlmcsd/src/crypto.c:61-74 | the block becomes MixColumnsR of the old block, and nothing else changes |
| Aes.MixWordOfColumn | vlmcsd-beta/vlmcsd/src/crypto.c:151-152 | the word stored for column c is column c of MixColumns of the block |
| Aes.MixWordROfColumn | vlmcsd-beta/vlmcsd/src/crypto.c:70-71 | the word stored for column c is column c of MixColumnsR of the block |
| Aes.XorWordBytes | vlmcsd-beta/vlmcsd/src/crypto.c:45 | the bytes of the sum of two little-endian words are the sums of their bytes |
| Aes.SameBlock | vlmcsd-beta/vlmcsd/src/crypto.c:39-47 | a buffer whose 16 bytes at off are those of a block holds that block at off |
| Aes.ChainStep | vlmcsd-beta/vlmcsd/src/crypto.c:279-284 | one pass of the AesEncryptCbc loop extends the ciphertext by one block and leaves the plaintext after it alone |
| Aes.UnchainStep | vlmcsd-beta/vlmcsd/src/crypto.c:311-315 | one pass of the AesDecryptCbc loop extends the plaintext downwards by one block and leaves the ciphertext before it alone |
| Aes.PadData | vlmcsd-beta/vlmcsd/src/crypto.c:267-274 | the data becomes the padded data, `*len` grows by the pad, and nothing after the pad changes |
| Aes.BlockBytes | vlmcsd-beta/vlmcsd/src/crypto.c:276-284 | a block equal to a block of e has e's bytes |
| Aes.AesCtx.Schedule | vlmcsd-beta/vlmcsd/src/crypto.c:102 | the schedule the cipher reads has (rounds + 1) * 4 words |
| Aes.AesCtx.WholeSchedule | vlmcsd-beta/vlmcsd/src/crypto.c:102 | with 11 rounds the schedule fills all 48 words of the key array |
| Aes.AesCtx.constructor | vlmcsd-beta/vlmcsd/src/crypto.c:180 | a fresh context has room for 48 key words |
| Aes.AesCtx.AddRoundKey | vlmcsd-beta/vlmcsd/src/crypto.c:49 | the block becomes itself plus the round key at `&Key[k]`, and nothing else changes |
| Aes.AesCtx.EncryptBlock | vlmcsd-beta/vlmcsd/src/crypto.c:157-173 | the block becomes its FIPS 197 encryption under the context's key schedule and round count, and nothing else in the buffer changes |
| Aes.AesCtx.EncryptRoundsLoop | vlmcsd-beta/vlmcsd/src/crypto.c:161-170 | the loop, run to its `break`, leaves the block one AddRoundKey short of the ciphertext |
| Aes.AesCtx.EncryptPass | vlmcsd-beta/vlmcsd/src/crypto.c:163-169 | a pass stops exactly at round rounds - 1, and otherwise leaves a block whose remaining rounds give the ciphertext |
| Aes.AesCtx.ForwardRound | vlmcsd-beta/vlmcsd/src/crypto.c:163-165 | the steps before the loop test: AddRoundKey, SubBytes and ShiftRows |
| Aes.AesCtx.DecryptBlock | vlmcsd-beta/vlmcsd/src/crypto.c:288-304 | the block becomes its decryption under the context's key schedule, and nothing else in the buffer changes |
| Aes.AesCtx.DecryptRoundsLoop | vlmcsd-beta/vlmcsd/src/crypto.c:294-303 | the loop, counting down to its `break` at `i == 0`, leaves the plaintext |
| Aes.AesCtx.DecryptPass | vlmcsd-beta/vlmcsd/src/crypto.c:296-302 | a pass stops exactly at round 0, and otherwise leaves a block whose remaining rounds give the plaintext |
| Aes.AesCtx.InverseRound | vlmcsd-beta/vlmcsd/src/crypto.c:296-298 | the steps before the loop test: ShiftRowsR, SubBytesR and AddRoundKey |
| Aes.AesCtx.EncryptCbc | vlmcsd-beta/vlmcsd/src/crypto.c:263-285 | `*len` grows by the pad and the data becomes the CBC encryption, under the iv or none, of the padded data; nothing after it changes |
| Aes.AesCtx.ChainBlocks | vlmcsd-beta/vlmcsd/src/crypto.c:276-284 | the chaining of AesEncryptCbc turns whole blocks into their CBC encryption |
| Aes.AesCtx.ChainStart | vlmcsd-beta/vlmcsd/src/crypto.c:276-277 | the first block is chained with the iv and encrypted |
| Aes.AesCtx.ChainLoop | vlmcsd-beta/vlmcsd/src/crypto.c:279-284 | the loop encrypts every block after the first, each chained with the ciphertext block before it |
| Aes.AesCtx.ChainNext | vlmcsd-beta/vlmcsd/src/crypto.c:281-283 | one pass encrypts the next block and keeps the blocks already done and those still to do |
| Aes.AesCtx.FirstBlock | vlmcsd-beta/vlmcsd/src/crypto.c:276-277 | the first block becomes the encryption of itself plus the iv, or of itself for a null iv |
| Aes.AesCtx.NextBlock | vlmcsd-beta/vlmcsd/src/crypto.c:281-283 | the block after off becomes the encryption of itself plus the block at off |
| Aes.AesCtx.DecryptCbc | vlmcsd-beta/vlmcsd/src/crypto.c:307-319 | the data becomes the CBC decryption of the old data under the iv or none, and nothing after it changes |
| Aes.AesCtx.UnchainFirst | vlmcsd-beta/vlmcsd/src/crypto.c:311-318 | the loop and then the first block give the whole plaintext |
| Aes.AesCtx.UnchainLoop | vlmcsd-beta/vlmcsd/src/crypto.c:311-315 | the loop, from the last block down to the second, decrypts them and leaves the first block as ciphertext |
| Aes.AesCtx.UnchainNext | vlmcsd-beta/vlmcsd/src/crypto.c:313-314 | one pass decrypts block cc and keeps the ciphertext before it |
| Aes.AesCtx.UnchainBlock | vlmcsd-beta/vlmcsd/src/crypto.c:313-314 | block cc becomes its decryption plus the ciphertext block before it |
| Aes.AesCtx.FirstPlain | vlmcsd-beta/vlmcsd/src/crypto.c:317-318 | the first block becomes its decryption plus the iv, or its decryption for a null iv |
| Aes.AesCtx.CopyKey | vlmcsd-beta/vlmcsd/src/crypto.c:100 | the first nk words of the key array are the key's words, read little-endian |
| Aes.AesCtx.ExpandKey | vlmcsd-beta/vlmcsd/src/crypto.c:102-110 | the loop fills the first n words with the expanded key |
| Aes.AesCtx.ExpandWords | vlmcsd-beta/vlmcsd/src/crypto.c:102-110 | the loop, against any word sequence that follows the recurrence, fills the words up to n with it |
| Aes.AesCtx.NextWord | vlmcsd-beta/vlmcsd/src/crypto.c:104-109 | one pass computes word i from words i - nk and i - 1 |
| Aes.AesCtx.InitKey | vlmcsd-beta/vlmcsd/src/crypto.c:88-120 | `rounds` becomes the key words plus 6, and the used words of the key array become the key schedule, tweaked for version 6 |
| Aes.AesCtx.TweakV6 | vlmcsd-beta/vlmcsd/src/crypto.c:112-119 | the three byte changes of version 6 turn the schedule into its tweaked form |
| Aes.AddKeyColumn | vlmcsd-beta/vlmcsd/src/crypto.c:49 | the word AddRoundKey stores for column c is that column of the block plus the round key |
| Aes.CmacV4 | vlmcsd-beta/vlmcsd/src/crypto.c:176-195 | the 16 bytes at `MacOut` (offset `mo` of its buffer, which may be the message buffer itself) receive the CBC-MAC under the version 4 key of the message, then 0x80, then zeros; every other byte of the message buffer holds the message, 0x80 and 15 zeros after it, and its old contents further on; a separate `MacOut` buffer is unchanged outside those 16 bytes |
| Aes.MarkAndMac | vlmcsd-beta/vlmcsd/src/crypto.c:184-192 | the memsets and the loop compute the MAC of the padded message under the context's block cipher, and leave the buffer marked: the message, 0x80, 15 zeros, the old tail |
| Aes.Marked | vlmcsd-beta/vlmcsd/src/crypto.c:185-186 | the buffer after the two memsets: byte by byte, the old contents before the message end and from 16 bytes past it, 0x80 at the end, zeros between |
| Aes.CmacContext | vlmcsd-beta/vlmcsd/src/crypto.c:182 | the context is keyed with the 20-byte version 4 key, so its block cipher has 11 rounds |
| Aes.MarkEnd | vlmcsd-beta/vlmcsd/src/crypto.c:185-186 | the 16 bytes after the message become 0x80 and 15 zeros, and nothing else changes |
| Aes.MarkedBlocks | vlmcsd-beta/vlmcsd/src/crypto.c:185-188 | after the memsets the buffer starts with the blocks the MAC chains |
| Aes.HeldBlock | vlmcsd-beta/vlmcsd/src/crypto.c:190 | a buffer that starts with m holds block j of m at `Message + 16j` |
| Aes.CopyMac | vlmcsd-beta/vlmcsd/src/crypto.c:194 | the 16 bytes at offset `mo` of `MacOut`'s buffer become the MAC, and no other byte of that buffer changes |
| Aes.MacBlocks | vlmcsd-beta/vlmcsd/src/crypto.c:184-192 | starting from a zero MAC, the loop `for (i = 0; i <= MessageSize; i += 16)` gives the CBC-MAC of the blocks |
| Aes.MacNext | vlmcsd-beta/vlmcsd/src/crypto.c:190-191 | one pass adds the block at i to the MAC and encrypts it |

## Left out

- The XML configuration the action's constructor reads is not modelled. The typed fields (application names, exceptions, `DontUninstallIfNoException`) are inputs.
- `GetMsiProducts` is a call into the Windows Installer COM object. The inventory it returns is an input `seq<Product>`.
- Starting, waiting for and killing `msiexec`, `Thread.Sleep` and the catch blocks of `UninstallProduct` are left out. Only the switch on the exit code is modelled.
- `UnregisterDLLAction.cs` is left out. It only expands a path, checks that a file exists and runs `regsvr32`.
- `Logger.Write` is left out. Its output is never read back.
- The .NET regular-expression engine is replaced by `AnchoredMatch` (the match of `^r$`) and `RegexIsMatch` (which adds the `$` rule). They read only the constructs `GetRegExpPattern` produces from a `SafePattern`: `.*`, `.` and literal characters. They keep two .NET details: `.` does not match a line feed, and `$` also matches before a final line feed.
- MsiPatterns.PatternMatchApplicationName: requires `SafePattern`, so a joker pattern holds no other regular-expression metacharacter (`\ * + ? | { [ ( ) ^ $ .`). The code passes such characters to `Regex` unescaped, and their meaning there is not modelled.
- MsiPatterns.PatternMatchApplicationName: names and patterns are Dafny strings, sequences of Unicode scalar values, while a .NET string is a sequence of UTF-16 code units and the regular-expression `.` that `_` becomes matches one code unit. For a name holding a character outside the Basic Multilingual Plane the two disagree: the model matches "A\U{1F600}B" against `A_B` and not against `A__B`, while .NET does the opposite. The same applies to the code-unit count of `Substring` in `MsiUninstall.GetFormattedIdentifyingNumber`, which makes no difference for the ASCII product codes it is given.
- MsiPatterns.Fold: case folding covers ASCII letters only. .NET's culture-aware `IgnoreCase` and `String.Compare(…, true)` also fold other letters. `String.Compare(a, b, true)` is also culture-aware in other ways: it ignores code points such as U+00AD (soft hyphen) and treats canonically equivalent sequences as equal, so it can return 0 for strings of different lengths. `EqualsIgnoreCase` requires equal lengths and compares code point by code point, so it rejects such pairs.
- The OpenSSL branches of `crypto.c`, the byte-swapping variant of `MixColumnsR` and the `SMALL_AES` search version of `SBoxR` are left out. Only the table `SBoxR` is modelled.
- `crypto.h` and `endian.h` are not part of this model. The model assumes a little-endian machine, so `LE32` does nothing, `BE32` reverses the bytes, and `ROR32` rotates right. It also assumes an `AesCtx` key array of 48 words, the most an 11-round schedule needs.
- DWORD alignment of the casted pointers is not modelled. Blocks are byte arrays, and a DWORD is read and written as four little-endian bytes.
- The width of `size_t` and the wrap-around of `uint_fast8_t` counters are not modelled. Lengths are unbounded naturals within the buffer, and no loop in the model's range reaches the wrap.
- Aes.XorBlock: requires that `in` and `out` do not overlap when they lie in the same buffer. The code has no such guard. No call in `crypto.c` passes overlapping blocks, except `AesDecryptCbc` when its caller passes the first data block as `iv` (see `Aes.AesCtx.DecryptCbc` below).
- Aes.AesCtx.InitKey: requires a key of 16 to 23 bytes (four or five words). This covers the 16- and 20-byte keys `crypto.c` uses. The `memcpy` of the trailing bytes of a key whose length is not a multiple of 4 is not modelled; those bytes are overwritten by the loop.
- Aes.AesCtx.InitKey: states the first (rounds + 1) * 4 words of the key array. The words past them, which every accepted key of four words (16 to 19 bytes) leaves untouched, are not stated.
- Aes.AesCtx.DecryptCbc: requires `iv != data`, as do `Aes.AesCtx.UnchainFirst` and `Aes.AesCtx.FirstPlain`. Unlike `AesEncryptCbc`, `AesDecryptCbc` does not declare its pointers `restrict`, so a caller may pass the first data block as `iv`; the final `XorBlock(iv, cc)` then zeroes that block, and the model does not cover that call. The `iv` is modelled as a separate array read from its start, so an `iv` pointing elsewhere inside `data` is not modelled either.
- Aes.AesCtx.DecryptCbc: requires a length that is a positive multiple of 16. For other lengths the code reads and writes bytes before `data`.
- AesModes.PadLength: `~len & 15` is computed on the low four bits of the length only, which the model writes as `16 - len % 16`.
- AesModes.CmacV4: the MAC of protocol version 4 is the plain CBC-MAC of the padded message under a fixed key, as the code computes it. It is not the CMAC of RFC 4493, which derives subkeys; the model does not relate the two.
- Aes.MacBlocks: the MAC buffer, a local array in C, is allocated by the method and handed back to `CmacV4`.
- Several loops have their body in a method of its own (`EncryptPass`, `DecryptPass`, `ChainNext`, `UnchainNext`, `NextWord`, `UpdateWordAt`, `XorWordAt`, `MacNext`, `MatchesNoException`). The statements are those of the loop body, in the same order.
