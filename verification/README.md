# Verification of the mainnet key tool

`keys/grind_key.py` grinds or converts a 64-byte Solana keypair and writes it in two
forms: `<address>.txt`, its base58 text, and `<address>.key`, an unencrypted OpenSSH
container. This project models the tool in Dafny and proves that every form it writes
determines the keypair, that every form it accepts is read without ambiguity, and that
its file handling is all-or-nothing and only ever adds files.

`dafny verify dfyconfig.toml` checks everything.

## What is modelled

- `Positional`: numbers and digit strings in any base. A change of base that keeps
  leading zeros is its own inverse; base58 is the instance 256 and 58.
- `Base58`: the two loops of the codec, proved equal to that change of base.
- `Json`, `JsonText`, `Keypair`: the loader for keypair arrays, what it does to whole
  documents, and the parser that picks between JSON, hex and base58.
- `Base64`, `Armor`, `Wire`, `OpenSsh`, `PublicLine`: the printer of the `.key` file and
  of the SSH line, with strict readers written from RFC 4648 (section 4), RFC 4251
  (section 5), RFC 8709 (section 4) and OpenSSH's PROTOCOL.key. Every layer is an
  if-and-only-if: the reader accepts exactly what the printer writes. What that is, byte
  by byte, is stated beside it (`OpenSsh.PrintKeyBytes`, `Armor.ArmoredText`).
- `Names`, `Protocol`, `Outcomes`, `OutputDirectory`, `Runs`, `Tool`: file names, what a
  run comes to, the output directory as a class whose methods take the steps of the
  source one by one, and sequences of runs. What the environment does (which system
  calls fail and after how much was written, what the key generator leaves behind, the
  input text, the four random bytes) is a parameter of each run, so every theorem holds
  for all of it. The class also records the directory after each single change, so that
  its contracts speak of a run broken off between any two steps as well: earlier files
  are intact then too, the directory is already closed to other users, and what else is
  there is generated JSON or lies under the names of the one keypair
  (`Runs.TraceSound`).

`Error` names the kind of failure; Python's `TypeError` from `bytes` counts as
`ValueError`, and `FileExistsError` is told apart from other `OSError`s.

## Where the code and its documentation part

- The comment at keys/grind_key.py:214 says no generated JSON is ever left behind. That
  holds if and only if the generator exits successfully or wrote nothing new: after a
  failing exit `subprocess.run` raises before the clean-up (`Runs.GrindRestoresIff`,
  `Runs.JsonOnlyFromFailedKeygen`; `Runs.FailedKeygenLeaves` is a run that leaves one).
- The grind command is documented to read a JSON array. `bytes(json.loads(...))` also
  takes a bare number, as that many zero bytes, and the empty object, as no bytes;
  `Json.LoadBytesIff` says exactly which documents load as which bytes. `parse_keypair`
  is not concerned, since it sends only text that starts with a bracket to the loader.
- `openssh_private_key` accepts a `check` of any length. Its output reads back if and
  only if the check word in use has four bytes (`OpenSsh.ReadKeyIff`);
  `OpenSsh.ShortCheckIsUnreadable` is a check of one byte, whose output is not readable.

## Model

| member | source | states |
|---|---|---|
| `Positional.RebaseInverse` | keys/grind_key.py:60-76 | writing a digit string in another base with as many leading zeros, and back, recovers it, for all bases and the empty and all-zero strings |
| `Positional.MinimalByteLength` | keys/grind_key.py:74 | `(bit_length + 7) // 8` is exactly the number of base-256 digits, so `to_bytes` neither overflows nor pads |
| `Positional.DigitsOfValue` | keys/grind_key.py:60-64 | a digit string without leading zero is the only one of its value |
| `Positional.ValueConcat` | keys/grind_key.py:60-73 | the value of digits is big-endian: each counts as many powers of the base as there are digits after it |
| `Base58.B58Encode` | keys/grind_key.py:58-66 | the divmod loop with prepended digits, and the padding, produce the specified text |
| `Base58.B58Decode` | keys/grind_key.py:69-76 | the left fold, the byte conversion and the padding produce the specified bytes, and a character off the alphabet is an error |
| `Base58.AlphabetIsAscending` | keys/grind_key.py:47 | the alphabet is the ASCII digits and letters but `0`, `O`, `I` and `l`, in the order of their codes |
| `Base58.EncodeMeans` | keys/grind_key.py:58-66 | a text denotes the number of its bytes in base 58 and has a `1` for each zero byte in front |
| `Base58.IndexIsDigit` | keys/grind_key.py:47-73 | the alphabet literal is the digits and letters without 0, I, O and l, each at the position of its digit |
| `Base58.HornerStep` | keys/grind_key.py:71-73 | one step of the fold is one more digit of the positional value; it stops only at text that is not base58 |
| `Base58.DecodeEncode` | keys/grind_key.py:58-76 | decoding inverts encoding on every byte string |
| `Base58.EncodeDecode` | keys/grind_key.py:58-76 | a text decodes to given bytes if and only if it is their encoding |
| `Base58.EncodeInjective` | keys/grind_key.py:58-66 | different bytes have different texts |
| `Base58.LengthBound` | keys/grind_key.py:58-66 | n bytes take at least n and at most 11 * ceil(n / 8) characters, leading zeros included |
| `Base58.KeyLengths` | keys/grind_key.py:58-66 | a keypair takes 64 to 88 characters, an address 32 to 44 |
| `Json.LoadsArrayIff` | keys/grind_key.py:84 | a document loads as an array if and only if it is one: items in any of their forms, commas, brackets, white space anywhere |
| `Json.LoadsNumberIff` | keys/grind_key.py:231 | a document loads as a bare number if and only if it is one |
| `Json.LoadsEmptyObjectIff` | keys/grind_key.py:231 | a document loads as the empty object if and only if it is one |
| `Json.LoadBytesIff` | keys/grind_key.py:84-231 | the documents that load as given bytes are their array; for zero bytes, their length as a bare number that an index can hold; for no bytes, the empty object |
| `Json.BareNumberLoads` | keys/grind_key.py:231 | a bare number does load, as that many zero bytes, and beyond the range of an index is an overflow |
| `JsonText.LoadsSkips` | keys/grind_key.py:84 | a space, tab, newline or carriage return at either end of any document changes nothing |
| `JsonText.LoadsSkipsOnly` | keys/grind_key.py:84 | any other character at the end of a document that loads changes it |
| `JsonText.DumpsLoads` | keys/grind_key.py:84 | what `json.dumps` writes for any numbers, with any white space after its commas, loads as them |
| `JsonText.DecimalText` | keys/grind_key.py:84 | the decimal of a number, digit by digit from the characters `0` to `9` |
| `JsonText.NegativeNumber` | keys/grind_key.py:231 | a negative bare number is refused or overflows, and minus zero is no bytes |
| `JsonText.OddDocuments` | keys/grind_key.py:231 | `true` is one zero byte, `false` and `{}` are none |
| `Keypair.ParseKeypair` | keys/grind_key.py:79-98 | success means 64 bytes |
| `Keypair.ParseIffForm` | keys/grind_key.py:79-98 | a text parses to a keypair if and only if, stripped, it is that keypair's base58 text, its hex text in some letter case, or an array of its bytes |
| `Keypair.StripSplit` | keys/grind_key.py:81 | stripping takes the listed white space off both ends, all of it, and nothing else |
| `Keypair.SpaceIsWhite` | keys/grind_key.py:81 | white space is the 29 characters that Python strips, listed |
| `Keypair.HexTextOfFromHex` | keys/grind_key.py:87-90 | every hex text is the hex form of what it decodes to |
| `Keypair.HexTextIs` | keys/grind_key.py:87-90 | the hex form has two digits for each byte, the upper half first, from `0123456789abcdef` in either case |
| `Keypair.ParseIsAnyForm` | keys/grind_key.py:79-98 | the parser accepts a text as a keypair if and only if one of the three forms, each taken on its own, yields it: branch order does not matter |
| `Keypair.FormsAreDisjoint` | keys/grind_key.py:82-95 | no text yields a keypair in two forms |
| `Keypair.Base58YieldsIsShort` | keys/grind_key.py:87-93 | base58 of a keypair is too short to pass for its hex and cannot start with a bracket |
| `Keypair.Base58IsCanonical` | keys/grind_key.py:91-98 | text accepted on the base58 branch, non-hex text of 128 characters included, is, once stripped, the encoding of the result |
| `Keypair.ParseBase58Text` | keys/grind_key.py:79-98 | the base58 form of a keypair, with white space around it, parses to it |
| `Keypair.ParseHexText` | keys/grind_key.py:87-90 | so does any text of two hex digits for each byte, the upper half first, each letter in either case |
| `Keypair.ParseArrayText` | keys/grind_key.py:82-86 | so does its JSON array, each item in any of its forms, and spaces, tabs, newlines and carriage returns anywhere inside |
| `Keypair.ParseDumps` | keys/grind_key.py:82-86 | so does the text that `json.dumps` writes for it, the form of generated files |
| `Base64.CharOfIsTable` | keys/grind_key.py:148 | the alphabet is the one RFC 4648 tabulates |
| `Base64.EncodeAt` | keys/grind_key.py:148 | which characters stand for any three bytes, six bits each, and the equal signs at the end |
| `Base64.DecodeIff` | keys/grind_key.py:148 | a text decodes to given bytes if and only if it is their encoding, padding and fill bits included |
| `Base64.EncodeIsPlain` | keys/grind_key.py:148 | encodings hold no newline, hyphen or space |
| `Wire.ReadStringIff` | keys/grind_key.py:101-102 | a length-prefixed string reads as its data and what follows, and nothing else does |
| `Wire.ReadStringsIff` | keys/grind_key.py:130-146 | any number of fields: the bytes read as those fields and that rest if and only if they are their frames and that rest |
| `Wire.PackIsBigEndian` | keys/grind_key.py:102 | a length below 2^32 is written as four bytes, the most significant first; others cannot be |
| `Wire.ReadPublicBlobIff` | keys/grind_key.py:105-107 | a blob reads as a 32-byte key if and only if it is the blob of that key |
| `Wire.PublicBlobBytes` | keys/grind_key.py:105-107 | the blob is the framed bytes of "ssh-ed25519" and the framed key |
| `Armor.ConcatWrap` | keys/grind_key.py:149 | the slices are all full but possibly the last, none is empty, and together they are the text |
| `Armor.WrapConcat` | keys/grind_key.py:149 | they are the only lines with those properties |
| `Armor.SplitJoin` | keys/grind_key.py:150-157 | splitting at newlines undoes the join of lines without newlines |
| `Armor.DearmorIff` | keys/grind_key.py:148-157 | a text reads as a body if and only if it is the armored form of that body |
| `Armor.ArmoredText` | keys/grind_key.py:148-157 | the text is the two OPENSSH PRIVATE KEY marker lines and, between them, the base64 with a newline after every 70 characters and after the last |
| `OpenSsh.SectionSize` | keys/grind_key.py:130-138 | the section is 123 bytes, two check words and the comment, then 1, 2, .. up to a multiple of eight |
| `OpenSsh.ReadSectionIff` | keys/grind_key.py:130-138 | a section reads as a check word, keypair and comment if and only if it is theirs, the padding found from the framing alone |
| `OpenSsh.ReadBodyIff` | keys/grind_key.py:139-147 | the same for the body around it, with nothing left over |
| `OpenSsh.ReadKeyIff` | keys/grind_key.py:116-157 | end to end: the strict reader accepts exactly the printed texts and recovers check, keypair and comment |
| `OpenSsh.PrintKeyBytes` | keys/grind_key.py:116-157 | which bytes a text holds, and that it is printed if and only if it holds them: "openssh-key-v1", "none" twice, one key, and the section byte by byte |
| `OpenSsh.ShortCheckIsUnreadable` | keys/grind_key.py:129-132 | with a one-byte check a container is printed that no strict reader takes |
| `OpenSsh.PrintKeyOkIff` | keys/grind_key.py:126-147 | which inputs can be printed: 64-byte keypairs whose section fits a 32-bit length; the others raise the named error |
| `OpenSsh.PrintKeyInjective` | keys/grind_key.py:116-157 | equal texts hold equal contents, for check words of any one length |
| `OpenSsh.OnePublicKey` | keys/grind_key.py:128-147 | the outer blob, the section's public field and the end of its private field are one key in every text |
| `OpenSsh.OpensshPrivateKey` | keys/grind_key.py:116-157 | the step-by-step printer produces the specified text or error, with random bytes only when no check is given |
| `PublicLine.ReadPublicLineIff` | keys/grind_key.py:110-113 | a line reads as a key and comment if and only if it is their line |
| `PublicLine.SshPublicLineText` | keys/grind_key.py:110-113 | the line is "ssh-ed25519", the base64 of the blob, and the comment |
| `Names.NamesCollideIff` | keys/grind_key.py:180-194 | two keypairs meet in a file name if and only if they share the public half |
| `Names.KeyFileReadsBack` | keys/grind_key.py:184-194 | a key file can always be printed, and reads back to its keypair and, as the comment, the characters of its address |
| `Names.StemIsAddress` | keys/grind_key.py:232-289 | all three file names have the address for a stem |
| `Names.NamesInFull` | keys/grind_key.py:180-192 | an address is base58 of the bytes from 32 on, and the names are the address with `.txt`, `.key` and `.json` |
| `Names.JsonNameIff` | keys/grind_key.py:232 | a file has the JSON name of a keypair if and only if it is a `.json` file whose stem decodes to the public half |
| `Names.Identify` | keys/grind_key.py:289-291 | the printed address decodes to the public half, and the printed line reads back to it |
| `OutputDirectory.OutDir.WriteSecret` | keys/grind_key.py:160-169 | a file is created whole or not at all, never over another: an existing one is `FileExistsError` |
| `OutputDirectory.OutDir.WriteKeyFile` | keys/grind_key.py:172-181 | the base58 of the keypair under its address with `.txt`, or an error and nothing |
| `OutputDirectory.OutDir.WriteSshKeyFile` | keys/grind_key.py:184-194 | the OpenSSH file under its address with `.key`, reading back to the keypair and the random check, or an error and nothing |
| `OutputDirectory.OutDir.Grind` | keys/grind_key.py:197-218 | the one new JSON file, or all new ones removed, or after a failing exit all kept |
| `OutputDirectory.OutDir.PrepareOutDir` | keys/grind_key.py:221-224 | success leaves all permissions to the owner and none to others; how far each failure gets |
| `OutputDirectory.OutDir.WritePair` | keys/grind_key.py:234-239 | exactly the two files of the keypair, or neither |
| `OutputDirectory.OutDir.TranscribeJson` | keys/grind_key.py:230-239 | both files of the keypair in a generated file, or the first error and nothing; when the error is a mismatch |
| `OutputDirectory.OutDir.CmdGrind` | keys/grind_key.py:227-241 | success means exactly the `.txt` and the `.key` of the keypair in the one generated file, and their names returned; otherwise nothing, unless the generator failed. The log of changes ends in the final files; after every change the directory is closed to others, all earlier files are intact, and any other is generated JSON or bears one of the two names; the generated file of a successful run is there until both key files are complete |
| `OutputDirectory.OutDir.CmdConvert` | keys/grind_key.py:244-251 | success means exactly the `.key` file of the keypair that the input parses to, and its name returned; the condition of success and of each error, with nothing stored then; the same bounds after every change; input that does not parse leaves files and mode alone |
| `Outcomes.GeneratedIs` | keys/grind_key.py:227-241 | what comes of the one generated file: the error of loading it, a mismatch if and only if its name is not the address with `.json`, a wrong length, an existing file, or success, each with its exact condition |
| `Outcomes.NotGenerated` | keys/grind_key.py:197-228 | the failures before that: preparing, the generator, the count of new files, reading |
| `Outcomes.MismatchIff` | keys/grind_key.py:232-233 | the check of the public half passes a keypair if and only if the stem of a `.json` file decodes to it |
| `Outcomes.GrindStores` | keys/grind_key.py:227-241 | a run that succeeds has stored exactly the two files of the keypair in the generated file: the text parses to it, the key file reads back to it |
| `Outcomes.GrindStoresNothing` | keys/grind_key.py:197-241 | a run that fails has stored nothing, but for the files of a generator that fails |
| `Outcomes.ConvertIs` | keys/grind_key.py:244-251 | a convert run stores exactly the key file of the keypair its input parses to, or nothing, with the condition of each error |
| `Runs.GrindSucceedsIff` | keys/grind_key.py:197-241 | exactly when a grind run succeeds, and with which keypair, from what is there, what was generated and what fails |
| `Runs.GrindRestoresIff` | keys/grind_key.py:197-241 | a failing grind run restores the directory if and only if the generator did not fail after writing |
| `Runs.FailedKeygenLeaves` | keys/grind_key.py:200-218 | a generator that fails after writing one file leaves it in an empty directory |
| `Runs.StepAdds` | keys/grind_key.py:160-251 | a run only adds files, all under new names |
| `Runs.StepKeepsSound` | keys/grind_key.py:160-251 | a run keeps every `.txt` and `.key` file in agreement with its name |
| `Runs.ExecKeeps` | keys/grind_key.py:160-251 | over any runs, no file is changed or removed by a later one |
| `Runs.ExecSound` | keys/grind_key.py:160-251 | from an empty directory, after any runs: every `.txt` parses to, and every `.key` reads back to, a keypair whose address is its name |
| `Runs.ExecAccounts` | keys/grind_key.py:160-251 | the files after any runs are the first ones and exactly what each run added |
| `Runs.JsonOnlyFromFailedKeygen` | keys/grind_key.py:197-241 | a JSON file survives only where the generator itself failed |
| `Runs.TraceKeeps` | keys/grind_key.py:160-251 | no earlier file is changed or removed even where runs are broken off after any of their changes |
| `Runs.TraceSound` | keys/grind_key.py:160-251 | from an empty directory, with any runs broken off anywhere: every file agrees with its name but those that a run broken off was writing, under its own keypair's names |
| `Runs.OwnNamesAre` | keys/grind_key.py:227-251 | those names are the `.txt` and `.key` of the one keypair that was generated, or the `.key` of the one that was parsed |
| `Runs.SuccessesDiffer` | keys/grind_key.py:160-251 | no run succeeds for the address of an earlier successful and completed run, whatever was broken off besides |
| `Runs.ExecIsTrace` | keys/grind_key.py:160-251 | completed runs are a special case of runs that may be broken off |
| `Tool.Invoke` | keys/grind_key.py:288-291 | a command that succeeds has stored the keypair it generated or parsed, and the identity printed is of that keypair; every state in between is one a run broken off may leave, closed to others |

## Left out

- Ed25519 itself, and whether the seed derives the public half: the tool does not check it (keys/grind_key.py:29-31).
- The key generator's process: a run of it adds any JSON files under new names and exits either way; that the address starts with the asked prefix is its business.
- Command-line parsing with its prefix check, printing of paths and sizes, and the mode bits of single files.
- Failing removals, other programs writing to the directory, and file systems that fold upper and lower case.
- Reading text files: their contents are text here, and an unreadable file is one outcome of the environment.
- UTF-8: a comment is given as its bytes; the comments the tool writes are base58 addresses, which are ASCII.
- Keypair.ParseKeypair: does not model brackets nested deeper than the interpreter's recursion limit, where the source lets `RecursionError` through instead of raising `ValueError`.
- Json.BareNumberLoads: does not model running out of memory, nor the limit of newer Pythons on the digits of a number; both make the source raise another error.
- JSON documents that `bytes` refuses all fail alike here.
- The Rust programs, the SDKs, the indexer and the front end of the repository: this project is about the key tool.
