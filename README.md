# EQEmu password hasher — a Dafny model

The EQEmu password hasher is a small desktop tool, written in Go. It produces
the strings that an EQEmu login server stores in `login_accounts.account_password`,
and it checks a password against such a string. This project models its hashing
engine and the decisions of its two tabs:

- **Legacy modes 1–12.** MD5, SHA-1 and SHA-512 of the password, of
  `password:username`, of `username:password`, or of the two hex digests
  concatenated ("Triple"). The digest is printed as lower-case hex.
- **Mode 13.** Argon2id with libsodium's interactive limits. It is written as a
  PHC string, `$argon2id$v=19$m=65536,t=2,p=1$<salt>$<tag>`, in unpadded standard
  base 64.
- **Mode 14.** scrypt with N = 16384, r = 8, p = 1. It is written in escrypt's
  `$7$` modular-crypt format, which uses libsodium's own base-64 alphabet
  `./0-9A-Za-z`, little-endian. The scrypt KDF is given the *encoded* salt text
  as its salt.
- **The escrypt verifier.** It reads the salt and the key back out of a `$7$`
  string and compares keys.
- **The generate tab.** The mode list, the parser that reads the mode number
  out of a label, the password check, the username check and the note under the
  username field.
- **The verify tab.** It trims the pasted text and tells scrypt, Argon2 and
  other strings apart by prefix.

Go strings are Dafny `string`s with one character per byte. The crypto
functions (MD5, SHA-1, SHA-512, scrypt, Argon2id) are parameters. Each is an
arbitrary deterministic function, and the only thing known about it is the
length of its output (`Primitives.Primitives`). The random source is a parameter
too: `Primitives.RandomSource` lists the bytes that `crypto/rand` can still
deliver, and a read that asks for more fails.

The files follow the program's structure:

| file | module | what it models |
|---|---|---|
| primitives.dfy | `Primitives` | the crypto functions, the random source, the hashing errors |
| gostrings.dfy | `GoStrings` | `strings.LastIndex`, `Index`, `SplitN(s, " ", 2)`, `HasPrefix`, `TrimSpace` |
| decimal.dfy | `Decimal` | `%d` and `strconv.Atoi` |
| hex.dfy, digests.dfy | `HexCodec`, `Digests` | `%x` of a digest, and `hashMD5` / `hashSHA1` / `hashSHA512` |
| base64std.dfy | `StdBase64` | `base64.RawStdEncoding` and a decoder for it |
| escrypt64.dfy | `Escrypt64` | `encode64Uint32`, `encode64Bytes` (as loops) and a decoder for them |
| argon2phc.dfy | `Argon2Phc` | `hashArgon2` |
| escryptmcf.dfy | `EscryptMcf` | `hashSCrypt`, `verifySCrypt` |
| modes.dfy | `Modes` | `modeNeedsUsername`, `eqcryptHash` |
| modelist.dfy | `ModeList` | `modeOptions`, `parseModeFromSelection` |
| ui.dfy | `PasswordTool` | the "Generate Hash" and "Verify" callbacks and the mode list's change callback |

wrappers.dfy, radix.dfy and ascii.dfy hold shared helpers: `Option`/`Result`,
powers of two and of 64, and the letter and digit tables.

## Model

| member | source | states |
|---|---|---|
| Primitives.ReadRandom | main.go:64-67 | `rand.Read` into an n-byte buffer either delivers exactly n bytes or fails with `RandomSourceFailure` |
| GoStrings.LastIndex | main.go:174 | the result is -1 or a position holding the character, and no later position holds it |
| GoStrings.LastIndexBeforeSuffix | main.go:174 | a `$` followed only by text without `$` is the one `LastIndex` finds |
| GoStrings.Index | main.go:225 | the result is -1 or a position holding the character, and no earlier position holds it |
| GoStrings.SplitFirstSpace | main.go:225 | `SplitN(s, " ", 2)` gives one part (all of `s`) when `s` has no space; otherwise two parts that rebuild `s` around its first space, the first part holding no space |
| GoStrings.HasPrefix | main.go:339-345 | `strings.HasPrefix` holds exactly when the prefix is no longer than the text and agrees with it character by character |
| GoStrings.TrimSpaceInfix | main.go:329 | what `TrimSpace` keeps is a contiguous piece of the input, starting at `TrimOffset` |
| GoStrings.TrimSpaceDropsLeading | main.go:329 | everything `TrimSpace` drops in front is white space |
| GoStrings.TrimSpaceDropsTrailing | main.go:329 | everything `TrimSpace` drops behind is white space |
| GoStrings.TrimSpace | main.go:329 | `strings.TrimSpace` never lengthens its input, and what it keeps neither starts nor ends with white space |
| GoStrings.TrimSpaceUnchanged | main.go:329 | non-empty text that neither starts nor ends with white space is left unchanged |
| GoStrings.TrimSpaceNoSpace | main.go:329 | text without white space is left unchanged |
| Decimal.ItoaDigits | main.go:82-83 | `%d` of n writes only decimal digits, and they stand for n |
| Decimal.AtoiFormatInt | main.go:229 | `strconv.Atoi` reads back every 64-bit integer that `%d` writes |
| Decimal.Atoi | main.go:229 | a successful `Atoi` lies in the 64-bit range |
| Decimal.Itoa | main.go:82-83 | `%d` of a natural number writes at least one character, the first a decimal digit, and `0` first only for zero (no leading zero) |
| Decimal.FormatInt | main.go:82-83 | `%d` writes at least one character and starts with a minus sign exactly when the number is negative |
| HexCodec.HexIsLowerHex | main.go:49-59 | `%x` of a byte array writes only lower-case hex digits |
| HexCodec.UnhexHex | main.go:49-59 | reading the `%x` text back gives exactly the bytes it was written from |
| HexCodec.HexInjective | main.go:49-59 | distinct byte arrays print as distinct hex text |
| HexCodec.Hex | main.go:49-59 | `%x` writes two hex digits per byte |
| Digests.HashMD5 | main.go:49-51 | `hashMD5` writes 32 hex digits |
| Digests.HashSHA1 | main.go:53-55 | `hashSHA1` writes 40 hex digits |
| Digests.HashSHA512 | main.go:57-59 | `hashSHA512` writes 128 hex digits |
| Digests.DigestText | main.go:49-59 | each formatter writes lower-case hex that reads back as exactly its digest |
| StdBase64.Encode | main.go:79-80 | unpadded base 64 of n bytes has 4⌊n/3⌋ symbols, plus 2 or 3 for a trailing group of 1 or 2 bytes |
| StdBase64.EncodeInAlphabet | main.go:79-80 | every symbol written is one of `A-Za-z0-9+/` |
| StdBase64.NoSeparatorOrPadding | main.go:79-82 | unpadded base-64 text holds neither the PHC separator `$` nor `=` |
| StdBase64.DecodeEncode | main.go:79-80 | decoding the encoding of any byte sequence gives it back |
| StdBase64.EncodeInjective | main.go:79-80 | distinct byte sequences have distinct encodings |
| StdBase64.GroupBigEndian | main.go:79-80 | each group of 1–3 bytes becomes symbols from `A-Za-z0-9+/` that, read big-endian six bits at a time, give the group's bytes shifted left by the 0, 2 or 4 zero bits that complete the last symbol |
| Escrypt64.Uint32Encoding | main.go:91-98 | `encode64Uint32(v, bits)` writes ⌈bits/6⌉ symbols of `itoa64`; when v < 2^bits they read back little-endian as v |
| Escrypt64.Encode64Uint32 | main.go:91-98 | the loop emits exactly `Uint32Symbols(value, bits)`: the low six bits per symbol, shifting by six until `bits` is covered |
| Escrypt64.Uint32SymbolsInAlphabet | main.go:91-98 | every symbol emitted is from `itoa64` |
| Escrypt64.Encode64Bytes | main.go:102-125 | the loop over full three-byte groups, then the one- or two-byte tail, emits exactly `BytesSymbols(src)` |
| Escrypt64.BytesSymbols | main.go:102-125 | n bytes give 4⌊n/3⌋ symbols, plus 2 or 3 for a trailing group of 1 or 2 bytes |
| Escrypt64.BytesSymbolsInAlphabet | main.go:102-125 | every symbol emitted is from `itoa64` |
| Escrypt64.NoSeparatorOrPadding | main.go:159-164 | escrypt base-64 text holds no `$`, so it cannot be confused with the MCF separator |
| Escrypt64.DecodeEncode | main.go:102-125 | decoding the encoding of any byte sequence gives it back |
| Escrypt64.EncodeInjective | main.go:102-125 | distinct byte sequences (salts, keys) have distinct encodings |
| Argon2Phc.PhcHeaderText | main.go:69-83 | with time cost 2, memory 65536 KiB and one thread, the header is `$argon2id$v=19$m=65536,t=2,p=1$` |
| Argon2Phc.HashArgon2 | main.go:63-84 | fails exactly when the random source cannot supply the 16-byte salt, and then with that failure; otherwise the string has 97 characters |
| Argon2Phc.HashArgon2Layout | main.go:63-84 | the fixed header, then 22 symbols that decode to the salt drawn, a `$` at 53 (the last `$`), then 43 symbols that decode to the Argon2id tag of the password under that salt |
| EscryptMcf.ParamSymbolsText | main.go:157-162 | log2 N = 14, r = 8 and p = 1 encode as `C`, `6....` and `/....` |
| EscryptMcf.LogNMatchesN | main.go:142-157 | the cost field written (log2 N = 14) is the N scrypt runs with: 2^14 = 16384 |
| EscryptMcf.HashSCrypt | main.go:133-167 | fails exactly when the random source cannot supply the 32-byte salt, and then with that failure; otherwise the string has 101 characters |
| EscryptMcf.HashSCryptLayout | main.go:133-167 | `$7$C6..../....`, then the 43-symbol encoded salt (which decodes to the bytes drawn), a `$` at 57 (the last `$`), then the 43 symbols of the key scrypt derives from the password and the ENCODED salt |
| EscryptMcf.VerifySCrypt | main.go:170-186 | the code as written, defined where it does not panic; a match needs exactly 43 symbols after the last `$` |
| EscryptMcf.VerifySCryptChecked | main.go:170-186 | the corrected verifier: a match needs the `$7$` marker, at least 58 characters and 43 symbols after the last `$` |
| EscryptMcf.SliceGuardGap | main.go:171-178 | the 14-character input `$7$C$.........` passes both guards, yet its last `$` is at index 4, so the salt slice is out of range |
| EscryptMcf.CheckedAgrees | main.go:170-186 | wherever the code as written is defined, the corrected verifier agrees with it; on the panicking inputs it rejects |
| EscryptMcf.GeneratedHashVerifies | main.go:133-186 | a string that `hashSCrypt` generated does not make the verifier panic, and it verifies with its own password, under both verifiers |
| EscryptMcf.WellFormedVerifies | main.go:170-186 | any string with the generated prefix, its last `$` at 57 and the key of its salt after it verifies |
| EscryptMcf.WellFormedVerdict | main.go:170-186 | on a string of the generated shape, the verifier accepts exactly when the encoded key of the password under the stored salt text equals the stored key |
| EscryptMcf.VerifyAcceptsExactlyMatchingKeys | main.go:133-186 | a generated string verifies another password exactly when scrypt derives the same key from both under the encoded salt |
| Modes.EqcryptHash | main.go:189-222 | the error is `UnsupportedMode(mode)` exactly when the mode is outside 1..14; any other error is a random-source failure of mode 13 or 14 |
| Modes.EqcryptLegacyTable | main.go:189-214 | modes 1–12 are MD5, SHA-1 and SHA-512 in that order, each with the four recipes: password, `password:username`, `username:password`, Triple |
| Modes.LegacyHash | main.go:189-214 | the twelve legacy modes give 32 hex digits for MD5 (1–4), 40 for SHA-1 (5–8) and 128 for SHA-512 (9–12) |
| Modes.LegacyHashShape | main.go:189-214 | every legacy hash is lower-case hex of 32, 40 or 128 digits, by digest |
| Modes.NeedsUsernameMatchesRecipe | main.go:40-45 | a mode is in `modeNeedsUsername` exactly when it is a legacy mode whose recipe uses the username |
| Modes.NeedsUsername | main.go:40-45 | `modeNeedsUsername[mode]` is true exactly for the legacy modes 1–12 other than 1, 5 and 9; any other key, missing from the map, reads as false |
| Modes.UsernameIgnored | main.go:189-222 | a mode that does not need a username gives the same result whatever the username |
| Modes.Argon2Mode | main.go:215-216 | mode 13 fails exactly when the 16-byte salt cannot be drawn; otherwise it gives a 97-character `$argon2id$` string |
| Modes.SCryptMode | main.go:217-218 | mode 14 fails exactly when the 32-byte salt cannot be drawn; otherwise it gives a 101-character `$7$` string that verifies with its password |
| ModeList.ParseModeFromSelection | main.go:224-234 | the result is 0 or an integer in Go's 64-bit range |
| ModeList.ParseLeadingInteger | main.go:224-234 | a label made of an integer, a space and any text parses to that integer |
| ModeList.FormatIntHasNoSpace | main.go:224-234 | `%d` never writes a space, so the first space of a label ends its number |
| ModeList.ParseWithoutNumber | main.go:224-234 | an empty selection, or one that starts with a space, reads as mode 0 |
| ModeList.ModeOptionsParse | main.go:23-38 | label i of the mode list parses to mode i + 1 |
| PasswordTool.GenerateClick | main.go:261-289 | "select a mode" exactly when the label parses to 0; a generated hash carries the parsed mode |
| PasswordTool.GenerateForMode | main.go:262-289 | each input message exactly when its check fails, in order: mode, password, username; a generated hash or error is what `eqcryptHash` returned for that mode |
| PasswordTool.EveryOptionGenerates | main.go:261-289 | every label of the mode list generates a hash of its own mode once the password (and, where the mode needs it, the username) is present and the random source holds the salt that mode draws: none for modes 1–12, 16 bytes for 13, 32 for 14 |
| PasswordTool.ModeGenerates | main.go:262-289 | each mode 1–14 generates once the password (and, where needed, the username) is present; modes 1–12 draw no randomness, mode 13 needs 16 random bytes and mode 14 needs 32 |
| PasswordTool.UnknownModeFails | main.go:262-289 | a non-zero mode outside 1–14, with a password, ends in the unsupported-mode error carrying that number |
| PasswordTool.UsernameNoteMatchesRecipe | main.go:249-256 | the note says "required" for a label exactly when that mode's recipe uses the username |
| PasswordTool.UsernameNote | main.go:249-256 | the note is one of the two texts, and says "required" exactly when the selected label parses to a mode in `modeNeedsUsername` |
| PasswordTool.ClassifyStoredHash | main.go:339-349 | scrypt exactly when the text starts with `$7$`; Argon2 exactly when it does not and starts with `$argon2` |
| PasswordTool.VerifyClick | main.go:328-350 | "both required" exactly when the trimmed hash or the password is empty; PASS only on a trimmed hash of at least 58 characters; the length answer carries the trimmed length, and only for strings that are neither scrypt nor Argon2 |
| PasswordTool.VerifyIgnoresSurroundingSpace | main.go:329 | surrounding white space in the pasted text does not change the verdict |
| PasswordTool.StoredClick | main.go:339-349 | on text with no surrounding white space, the verdict is the one its kind calls for |
| PasswordTool.LegacyHashVerdict | main.go:347-349 | a legacy hash is answered with its length: 32, 40 or 128 |
| PasswordTool.Argon2Verdict | main.go:345-346 | a generated Argon2id string is recognised and refused |
| PasswordTool.GenerateThenVerify | main.go:244-344 | generating with the default mode (SCrypt) and verifying the shown string with the same password gives PASS |
| PasswordTool.SCryptGeneratesAndVerifies | main.go:262-344 | mode 14 generates a string that then verifies with the same password |
| PasswordTool.SCryptVerdict | main.go:328-344 | a generated scrypt string passes for another password exactly when scrypt derives the same key from both |

## Left out

- The Fyne widgets, the window and the clipboard are not modelled. This covers the "Copy to Clipboard" and "Paste from Clipboard" buttons, which only trim text and move it. The callbacks are modelled as functions of their inputs, and the `GenerateOutcome` and `Verdict` datatypes name the branch each status text belongs to. The texts themselves and the "Hash length" status line are left out.
- MD5, SHA-1, SHA-512, scrypt and Argon2id are parameters with only their output lengths known. Their internals are library code.
- `crypto/rand` is a parameter listing the bytes it can deliver. Which bytes it delivers is not modelled.
- `scrypt.Key` never fails for the fixed valid parameters used here. The model therefore leaves out the error branches of main.go:152-154 and main.go:182-184.
- Go returns `""` beside an error. The model returns only the error.
- `GoStrings.TrimSpace` removes ASCII white space only. Go's `strings.TrimSpace` also removes Unicode white space, which is not modelled.
- `Decimal.Atoi` returns `None` where Go returns a `*NumError`. The error value itself is not modelled.
- `ModeList.ModeOptions` is built as number + space + description. The descriptions are the labels of main.go:23-38 with their number and space removed. No lemma spells out the fourteen joined strings character by character; `ModeList.ModeOptionsParse` states what the generate tab relies on.
- `Decimal.MinInt` and `Decimal.MaxInt` fix Go's `int` at 64 bits. On a 32-bit target `int` is 32 bits wide, and `strconv.Atoi` rejects values outside ±2^31 there. That platform is not modelled.
- `PasswordTool.VerifyClick` calls the corrected verifier. With the code as written, the verify tab panics on the inputs listed under Findings.

## Findings

| source | as written | input that shows it | evidently intended | confidence | as-written member | corrected member |
|---|---|---|---|---|---|---|
| main.go:171-178 | the guards reject a string shorter than 14 characters and a last `$` at index 3 or before, then slice `storedHash[14:lastDollar]` | `$7$C$.........` (14 characters, last `$` at index 4): the slice has its low bound above its high bound and Go panics | a last `$` before index 14 leaves no room for the parameter fields and should be a non-match | not executed | EscryptMcf.VerifySCrypt, EscryptMcf.SliceGuardGap | EscryptMcf.VerifySCryptChecked, EscryptMcf.CheckedAgrees |
