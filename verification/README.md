# DevLogs core in Dafny

DevLogs is a small diary application. Each account is one encrypted file.
The file holds a random salt in clear, then an AES-256-CBC envelope whose
key is SHA-256 of a fixed pepper, the password and the salt. Inside the
envelope is the plaintext body:

- the username;
- the derived key;
- the creation time;
- the list of entries, each with its own binary layout.

A session manager lets one account be logged in at a time. After five
failed logins it locks for a growing delay.

This project models the non-GUI core of backend.py and utils.py in Dafny
and proves properties of that model. The modules follow the program's
structure:

| module | file | models |
|---|---|---|
| `Errors` | errors.dfy | the exception classes of exceptions.py and the built-in errors the code raises, as one `Error` datatype, plus `Result`/`Option` |
| `Codec` | codec.dfy | `hex_to_bytes`, `num_to_bytes`, `bytes_to_num`, `bytes_fixlen`, and Python slicing (`Slice`, `From`) |
| `Utf8` | utf8.dfy | `str.encode('utf-8')` and strict `bytes.decode('utf-8')` |
| `Cipher` | cipher.dfy | `AESEncrypt`: block padding (section 6.3 of RFC 5652), the IV‖ciphertext envelope, and the None-on-empty rule of `decrypt` |
| `Entries` | entry.dfy | `Entry.dumps`, `Entry.loads`, `Entry.update` |
| `Accounts` | account.dfy | `Account.checks_auth`, `dumps`, `loads`, the `__init__` guard and `create_account` |
| `EntryList` | entrylist.dfy | `add_entry`, `del_entry`, `move_entry_up`, `move_entry_down` |
| `Fname` | fname.dfy | `Account.sanitize_fname` |
| `Sessions` | session.dfy | `SessionManager` (lockout state machine, `stop_session`, `save_account`) and `Session.add_new_entry` |

Bytes are integers 0–255 (`Codec.byte`). Strings are Dafny strings of
Unicode scalar values. Nothing that depends on the outside world is
computed inside the model; it is passed in as a parameter:

- SHA-256 and AES-CBC are the function fields of `Cipher.Primitives`.
  `Cipher.IsBlockCipher` is the one assumption the proofs make about them:
  on whole blocks, decryption inverts encryption and both keep the length.
- The IV, the salts and the clock readings are parameters.
- The outcome of reading an account file is a parameter of
  `Sessions.CreateSession`.

Details of the code that the model follows exactly:

- `bytes_fixlen` keeps the first `length` bytes of a longer input and
  drops the rest.
- The username field is zero-padded on the left.
- Moving an entry up or down changes the `entry_num` of both entries
  involved.
- `bytes_to_num(b'')` raises ValueError.
- While a lockout is running, `create_session` raises TooManyAttempts even
  when a session is open, because the swapped-in function raises before
  the session check.

Three places in the code do not do what their callers need; they are listed
under "## Findings". For each, the model holds both the code as written and
a corrected definition:

- `num_to_bytes` as written (`Codec.NumToBytes`) next to the shortest
  big-endian encoding (`Codec.NumToBytesIntended`);
- `Entry.dumps` and `Account.dumps` as written (`Entries.DumpsAsWritten`,
  `Accounts.DumpsAsWritten`) next to dumps that count the title length in
  bytes and use the corrected encoder (`Entries.Dumps`, `Accounts.Dumps`);
- `Account.__init__` as written (`Accounts.InitAsWritten`) next to a
  constructor that always runs its validation (`Accounts.Create`).

The round-trip lemmas are proved for the corrected definitions, and the
lemmas named `…AsWritten` and `…Agrees` carry them over to the code as
written where it coincides with them: ASCII titles and no digit run.

## Model

| member | source | states |
|---|---|---|
| Codec.FixLen | utils.py:63-73 | the result is exactly `length` bytes; a short input ends the result unchanged after zero bytes; a long input loses everything after its first `length` bytes |
| Codec.FixLenKeepsValue | utils.py:70-73 | when the input is no longer than the field, the padded result has the same big-endian value |
| Codec.BytesToNum | utils.py:54-60 | an empty input is a ValueError, and any other input gives its unsigned big-endian value |
| Codec.NumToBytesIntended | utils.py:45-51 | a negative number is a ValueError; otherwise the result is the shortest big-endian encoding with at least one byte, with no leading zero byte |
| Codec.HexToBytes | utils.py:21-33 | only ValueError escapes, and the branch taken for digits that occur inside '0123456789abcdef' can only produce a single byte |
| Codec.NumToBytes | utils.py:45-51 | `num_to_bytes` raises only ValueError, and always for a negative number, whose digits start with `x` |
| Codec.NumToBytesTable | utils.py:21-33 | `num_to_bytes` as written: negative numbers and even-padded digit strings that occur inside '0123456789abcdef' and are longer than two digits raise ValueError; every other number gets its shortest big-endian encoding |
| Codec.NumToBytesRoundTrip | utils.py:45-60 | whenever `num_to_bytes` succeeds, the number was non-negative and `bytes_to_num` reads it back |
| Codec.NumToBytesAgreesWithIntended | utils.py:21-51 | the code as written and the corrected encoder agree wherever the code does not raise, and on every non-negative number that is not a digit run |
| Codec.NumToBytesRejects291 | utils.py:28-31 | 0x123 pads to "0123", which occurs in the alphabet, so `num_to_bytes` raises, while the corrected encoder gives [0x01, 0x23] |
| Codec.MinimalBytesFits | utils.py:63-73 | a number's shortest encoding fits a k-byte field exactly when the number is below 256^k |
| Codec.FieldRoundTrip | utils.py:45-73 | a number below 256^k, encoded and fixed to k bytes, is read back unchanged by `bytes_to_num` |
| Codec.Field | backend.py:81 | encoding a field fails exactly for a negative number, and otherwise yields exactly `width` bytes |
| Utf8.DecodeEncode | backend.py:49-57 | strict UTF-8 decoding undoes encoding for every string |
| Utf8.EncodeAscii | backend.py:74-78 | the byte length equals the character count exactly when the string is ASCII, and then each byte is the character's code point |
| Utf8.LoneLeadByteRejected | backend.py:49 | the first byte of a two-byte character alone does not decode |
| Cipher.Pad | utils.py:158-166 | the padded message is a multiple of 16 bytes and 1 to 16 bytes longer than the input; it starts with the message, and every added byte holds the number of bytes added |
| Cipher.Unpad | utils.py:170-176 | an empty message raises TypeError; otherwise the result is a prefix of the message, as long as the message minus its last byte's value, or empty when that value is 0 or at least the length |
| Cipher.UnpadPad | utils.py:158-176 | unpadding undoes padding for every byte string |
| Cipher.UnpadIgnoresPadContents | utils.py:176 | only the last byte is read: any p−1 bytes followed by the byte p are stripped |
| Cipher.Encrypt | utils.py:119-136 | the result starts with the IV; for a block cipher the rest is the padded message's length, 1 to 16 bytes longer than the message |
| Cipher.Decrypt | utils.py:138-156 | a ValueError occurs exactly when the IV is short or the ciphertext is not whole blocks; a present result is never empty |
| Cipher.DecryptNoneCases | utils.py:154-156 | for well-formed input, `decrypt` gives None exactly when the decrypted last byte is 0 or at least the plaintext length |
| Cipher.DecryptIvOnly | utils.py:147-154 | an input that is only an IV decrypts to nothing, and unpadding nothing raises TypeError |
| Cipher.DecryptEncrypt | utils.py:119-156 | decrypting an encryption under the same key gives the message back, except that an empty message comes back as None |
| Entries.Dumps | backend.py:68-98 | the dump fails exactly for a negative entry number, with ValueError; otherwise it is 21 bytes plus the UTF-8 title and body |
| Entries.DumpsAsWritten | backend.py:68-98 | `Entry.dumps` as written: only ValueError, always for a negative number; a dump is 21 bytes plus the UTF-8 title and body, and its first byte is the title's character count when that is below 256 |
| Entries.Loads | backend.py:40-66 | an empty input raises ValueError; only ValueError and UnicodeDecodeError can occur; a successful load read at least 14 bytes |
| Entries.Update | backend.py:109-118 | title, body and last-update time are replaced; the number and creation time are kept |
| Entries.RoundTrip | backend.py:40-98 | every entry whose fields fit their widths loads back from its dump with all five fields equal |
| Entries.RoundTripAsWritten | backend.py:40-98 | with the code as written, an ASCII title under 256 characters, an entry number below 2^32 and times below 2^64 load back whenever the dump does not raise |
| Entries.AsWrittenAgreesOnAscii | backend.py:74-75 | for an ASCII title, the dump as written equals the corrected dump whenever it succeeds, and always when no number is a digit run |
| Entries.NonAsciiTitleBreaksLoad | backend.py:74 | for the title "é" the dump as written records length 1, and loading it raises UnicodeDecodeError; the corrected dump loads back |
| Entries.NonAsciiTitleShiftsFields | backend.py:74 | for the title "éa" the dump as written records length 2, and loading it raises nothing but gives title "é", entry number 0x61000000 and body "\0" |
| Accounts.KeyMaterial | backend.py:166 | the bytes hashed into a key are the 32-byte pepper, then the UTF-8 password, then the salt |
| Accounts.KeyMaterialInjective | backend.py:166 | under one salt, different passwords hash different bytes |
| Accounts.ChecksAuth | backend.py:151-171 | no password gives None; an empty file gives empty data; a successful decryption of a non-empty file is non-empty; only ValueError or TypeError escape |
| Accounts.Body | backend.py:274-300 | the corrected body fails exactly when some entry number is negative; otherwise it is at least 74 bytes, with the stored key at bytes 32 to 64 |
| Accounts.FrameAsWritten | backend.py:292-297 | one entry framed as written: only ValueError, and a frame is 3 bytes longer than the entry's dump |
| Accounts.FramesAsWritten | backend.py:292-298 | the entry section as written: only ValueError, and always when some entry number is negative |
| Accounts.BodyAsWritten | backend.py:276-300 | the body as written: only ValueError; otherwise at least 74 bytes, with the stored key at bytes 32 to 64 |
| Accounts.DumpsAsWritten | backend.py:274-310 | `Account.dumps` as written: fails, with ValueError, exactly when its body does; otherwise the file starts with the stored salt |
| Accounts.Dumps | backend.py:274-310 | the corrected dump: the file starts with the stored salt and then the IV; it fails, with ValueError, exactly when the body does |
| Accounts.ParseEntries | backend.py:238-243 | a successful parse yields exactly the declared number of entries; failures are ValueError or UnicodeDecodeError |
| Accounts.ParseBody | backend.py:229-243 | parsing the decrypted body raises only ValueError or UnicodeDecodeError |
| Accounts.Loads | backend.py:211-256 | the only errors are InvalidCredentials, InvalidAccountFormat, ValueError and TypeError; a missing password is InvalidCredentials; an empty file is InvalidAccountFormat; a loaded account carries the new salt and the key re-derived from it |
| Accounts.StripNul | backend.py:231 | the result is a slice of the input with only NULs before and after it, and it neither starts nor ends with NUL |
| Accounts.UsernameFieldRoundTrip | backend.py:229-231 | a username of at most 32 UTF-8 bytes without edge NULs reads back from its zero-padded field |
| Accounts.FramesRoundTrip | backend.py:238-243 | the entry section (3-byte size, then the entry) reads back entry for entry, in order, whatever follows it |
| Accounts.BodyRoundTrip | backend.py:229-243 | parsing the plaintext body returns the username, the creation time and the entries |
| Accounts.FrameAsWrittenAgrees | backend.py:74-98 | for an ASCII title the frame as written equals the corrected frame whenever it succeeds, and always when no digit run is met |
| Accounts.FramesAsWrittenAgrees | backend.py:292-298 | for ASCII titles the entry section as written equals the corrected one whenever it succeeds, and always when no digit run is met |
| Accounts.BodyAsWrittenAgrees | backend.py:276-300 | for ASCII titles the body as written equals the corrected body whenever it succeeds, and always when no digit run is met |
| Accounts.DumpsLoadsAsWritten | backend.py:211-310 | with ASCII titles, `Account.dumps` as written loads back like the corrected dump whenever it does not raise, and it does not raise when no digit run is met |
| Accounts.Entry291BlocksDump | backend.py:292-297 | an entry with an empty title and a 270-character body dumps to 291 bytes, so `Account.dumps` as written raises ValueError on its size while the corrected dump succeeds |
| Accounts.KeyFieldIgnored | backend.py:232-233 | replacing the stored key field changes nothing that is loaded |
| Accounts.ChecksAuthOfDumps | backend.py:165-169 | `checks_auth` on a dump with the password the key came from re-derives that key from the leading salt and returns the body |
| Accounts.DumpsLoads | backend.py:211-310 | an account whose fields fit loads back from its dump under the same password: same username, creation time and entries, with a new salt and the key derived from it |
| Accounts.ShortBodyIsInvalidFormat | backend.py:222-223 | a decrypted body shorter than 74 bytes is InvalidAccountFormat |
| Accounts.MissingSizeFieldEscapesLoads | backend.py:211-247 | a 74-byte body with a readable username and a non-zero entry count makes `loads` raise ValueError, uncaught |
| Accounts.EmptyDecryptionIsInvalidCredentials | backend.py:218-221 | a decryption that gives None is InvalidCredentials |
| Accounts.BadUsernameIsInvalidFormat | backend.py:229-247 | a username field that is not UTF-8 is InvalidAccountFormat |
| Accounts.MissingSizeFieldEscapes | backend.py:240-245 | a declared entry whose size field is missing reaches `bytes_to_num(b'')`, and the ValueError is not caught |
| Accounts.InitAsWritten | backend.py:319-349 | the constructor's body runs only when both arguments are the same non-None object, and then it gives what the intended constructor gives; in every other case the object is left bare |
| Accounts.CreateAccountAsWritten | backend.py:191-198 | sign-up as written: AttributeError unless both arguments are the same object; then InvalidUsername for a name over 32 bytes, and otherwise the dump as written of the new account |
| Accounts.DistinctCredentialsSkipInit | backend.py:191-198 | sign-up with a username and a password that are different strings raises AttributeError |
| Accounts.Create | backend.py:319-349 | the constructor as intended fails, with InvalidUsername, exactly when the name is over 32 bytes; otherwise it gives an empty account with the derived key |
| Accounts.CreateDumpsLoads | backend.py:191-198 | a new account dumps and loads back under its password |
| EntryList.AddEntry | backend.py:351-357 | the list grows by one entry with the given text, the two clock readings and the old length as its number; the old entries are unchanged; the numbering invariant is kept |
| EntryList.DelEntry | backend.py:359-367 | the list loses the entry at i; the entries before it are unchanged; each later entry moves one place forward with its number lowered by one; the numbering invariant is kept |
| EntryList.MoveUp | backend.py:369-378 | at position 0 nothing changes; otherwise the entry and its predecessor swap places, the moved entry's number goes down by one and the other's up by one, and nothing else changes; the numbering invariant is kept |
| EntryList.MoveDown | backend.py:380-389 | the mirror image of MoveUp: the last position is a no-op |
| EntryList.MoveDownUndoesMoveUp | backend.py:369-389 | moving an entry up and then back down restores the list |
| EntryList.MoveUpUndoesMoveDown | backend.py:369-389 | moving an entry down and then back up restores the list |
| EntryList.MoveUpPermutes | backend.py:369-378 | after a move up the list holds the same contents, as a permutation |
| EntryList.MoveDownPermutes | backend.py:380-389 | after a move down the list holds the same contents, as a permutation |
| EntryList.AddThenDelete | backend.py:351-367 | deleting the entry just added gives the original list |
| Fname.EscapeShape | backend.py:144-146 | each filtered character becomes '%' and the two upper-case hexadecimal digits of its code point |
| Fname.Sanitize | backend.py:135-148 | the output is at least as long as the input, and a name without filtered characters is unchanged |
| Fname.SanitizeHasNoPathChars | backend.py:135-148 | the output contains none of the nine path characters |
| Fname.UnsanitizeSanitize | backend.py:135-148 | reading the escapes back gives the original name |
| Fname.SanitizeInjective | backend.py:135-148 | distinct names give distinct file names |
| Fname.SanitizeExample | backend.py:135-148 | "a/b%" becomes "a%2Fb%25" |
| Sessions.Init | backend.py:431-439 | a new manager has no session, no lock, no failures and a 20-second delay, and satisfies the invariant |
| Sessions.CreateSession | backend.py:441-491 | locked: TooManyAttempts, no load, no change; otherwise an open session gives SessionOngoing; otherwise success opens the session and resets the counters, InvalidCredentials and InvalidAccountFormat add one failure and lock at five, and any other error changes nothing |
| Sessions.LockoutExpired | backend.py:441-462 | the end of a lockout unlocks and lengthens the next delay by exactly 10 seconds, keeping the failure count and the session |
| Sessions.StopSession | backend.py:493-499 | the session is closed and nothing else changes |
| Sessions.SaveAccount | backend.py:501-506 | with no session the result is NoSession; otherwise the file starts with the account's salt; only NoSession or ValueError occur |
| Sessions.AddNewEntry | backend.py:412-418 | the account gains, after its old entries, an entry with the given text, the old count as its number and the two clock readings; nothing else changes |
| Sessions.CreateSessionValid | backend.py:465-491 | a login attempt keeps the invariant: the delay is 20 plus whole increments, a lock implies five failures and no session, and an open session implies a zero count |
| Sessions.LockoutExpiredValid | backend.py:441-462 | the end of a lockout keeps the invariant |
| Sessions.FailuresAccumulate | backend.py:473-486 | failed logins below the threshold only add to the count |
| Sessions.FifthFailureLocks | backend.py:427-486 | from a fresh manager, four failures leave it unlocked and the fifth locks it |
| Sessions.LockedAttemptsChangeNothing | backend.py:446-454 | while locked, any series of attempts leaves the state unchanged |
| Sessions.RelockAfterExpiry | backend.py:457-486 | since a lockout does not reset the count, one failure after it ends locks again, with the delay ten seconds longer |
| Sessions.NotFoundIsNotCounted | backend.py:472-486 | a login for a missing account raises AccountNotFound and does not count |
| Sessions.SuccessAfterExpiryResets | backend.py:488-489 | a successful login resets the failure count to 0 and the delay to 20 |
| Sessions.LoginWriteSaveReload | backend.py:465-506 | log in, add an entry and save: the saved file, loaded with the same password, holds the old entries followed by the new one; with ASCII titles and no digit run the dump as written saves the same file |

## Left out

- File-system plumbing is not modelled: `open`, `read` and `write`, `exists` and `isfile`, `check_auth`, `load`, `dump`, `delete_account` and `deletefile`. These are I/O. Their byte-level cores (`checks_auth`, `loads`, `dumps`) are modelled.
- The file-existence probe in `Account.__init__` (backend.py:333-341) is not modelled. It is I/O, and it sits behind the guard that `InitAsWritten` models.
- `token_bytes`, the IV from `Crypto.Random` and `time_ns` are parameters. They are randomness and clocks.
- AES-256 in CBC mode and SHA-256 are uninterpreted function fields. They are foreign library calls. `IsBlockCipher` states the inverse and length facts the proofs use.
- The threads and `sleep` of `hardlock`, and the runtime swap of `create_session`, become the `locked` flag and the `LockoutExpired` event. Concurrency is not modelled: the lock takes effect in the same step as the failure that causes it.
- The save done by `Session.__del__` when a session is dropped is not modelled. It is a finalizer with I/O.
- `Session.lock_account` is not modelled. It is `NotImplemented`.
- `timestamp`, `bytes_to_hex` outside its use in `bytes_to_num`, the import-time `print`, frontend.py, main.py and settings.py are not modelled. They are formatting, GUI and start-up code with no logic of the core.
- Codec.Field: states the corrected encoder, which fails only for a negative number. The code as written also raises for digit runs such as 291; that is `Codec.NumToBytes` and `Codec.NumToBytesTable`.
- Entries.Dumps: states the corrected dump, with the title length in bytes. The dump as written is `Entries.DumpsAsWritten`; `Entries.AsWrittenAgreesOnAscii` says where the two agree.
- Accounts.Body: states the corrected body. The body as written is `Accounts.BodyAsWritten`, which also raises on digit runs and inherits the character-count title length; `Accounts.BodyAsWrittenAgrees` says where the two agree.
- Accounts.FramesRoundTrip: proved for the corrected frames only. As written, a non-ASCII title or a digit-run size breaks it (`Entries.NonAsciiTitleBreaksLoad`, `Accounts.Entry291BlocksDump`); `Accounts.FramesAsWrittenAgrees` carries it over for ASCII titles.
- Accounts.BodyRoundTrip: proved for the corrected body only. `Accounts.BodyAsWrittenAgrees` carries it over to the body as written for ASCII titles whenever that body does not raise.
- Accounts.DumpsLoads: proved for the corrected dump only. For `Account.dumps` as written the round trip is `Accounts.DumpsLoadsAsWritten`, which needs ASCII titles; a non-ASCII title breaks it (`Entries.NonAsciiTitleShiftsFields`).
- Sessions.LoginWriteSaveReload: the save goes through the corrected dump. The dump as written saves the same file only for ASCII titles with no digit run; a non-ASCII title makes the reload fail or return shifted fields.
- Sessions.SaveAccount: writes the corrected dump. `save_account` as written writes `Accounts.DumpsAsWritten`, which can also raise ValueError on a digit run.
- Accounts.DeriveKey: SHA-256 is a parameter, so nothing is promised about the key beyond what `Accounts.KeyMaterial` says about the hashed bytes.
- EntryList.DelEntry: the entry is given by its position, not found by `list.index` through object identity. The source's ValueError for an entry that is not in the list is therefore not modelled.
- EntryList.MoveUp: the entry is given by its position, for the same reason.
- EntryList.MoveDown: the entry is given by its position, for the same reason.
- Accounts.Loads: the `except IndexError` branch (backend.py:244-245) has no counterpart. Python slicing never raises IndexError, so the branch is dead code.
- Accounts.ChecksAuth: the empty-result rule covers only the empty byte string. A `None` file content, which `checks_auth` also accepts, cannot be a byte string in the model.
- Utf8.DecodeOrRaise: the message and position carried by UnicodeDecodeError are not modelled. Only the error kind is.

## Findings

| source | as written | input that shows it | evidently intended | confidence | as-written member | corrected member |
|---|---|---|---|---|---|---|
| utils.py:30-31 | `hex_to_bytes` takes the `bytes([int(h, 16)])` branch whenever the even-padded digits occur inside '0123456789abcdef'. That branch only accepts values below 256. | `num_to_bytes(0x123)`: "0123" occurs in the alphabet, so `bytes([291])` raises ValueError. An entry dump of 291 bytes therefore cannot be saved (`Accounts.Entry291BlocksDump`). | the shortest big-endian encoding of every non-negative number | high; not executed | Codec.NumToBytesRejects291 | Codec.NumToBytesIntended |
| backend.py:74 | the title length byte holds `len(self.title)`, a character count | title "é" (2 UTF-8 bytes): the prefix says 1, `loads` decodes the lone byte 0xC3 and raises UnicodeDecodeError; title "éa" loads without error as "é" with entry number 0x61000000 (`Entries.NonAsciiTitleShiftsFields`) | the length of the UTF-8 encoded title | high; not executed | Entries.NonAsciiTitleBreaksLoad | Entries.RoundTrip |
| backend.py:321 | `username is raw_password is not None` is a chained identity test, so the constructor body runs only when both arguments are the same object | `create_account("alice", "hunter2")` leaves the object bare, and `dump()` raises AttributeError | validate and initialise whenever both arguments are given | high; not executed | Accounts.DistinctCredentialsSkipInit | Accounts.Create |
