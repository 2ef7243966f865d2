# Verified models of NSS tools

This project models the parts of the NSS command-line tools and of their C++ test library that carry state, loops
or arithmetic, and proves what they are for. Every file is Dafny; `dafny verify dfyconfig.toml` checks the whole
project.

- **CRL scripts** (`cmd/crlutil`). `Tokenizer` is the reference: the longest match at the start of the unread text,
  over any scanner tables with the properties flex gives them. `CrlgenTables` has the compressed tables of
  `crlgen_lex.c` with the loop that looks a transition up in them, and `CrlgenRows` what they say state by state.
  `CrlgenRules` has the token rules of `crlgen_lex_orig.l` as predicates on texts, and the proof that the tables
  implement them: the scanner takes the longest text any rule matches, and the first rule that matches it
  (`CrlgenRules.LongestMatchFirstRule`). `Matching` relates the matching loop with its two sentinels to the reference, `ScannerState` holds the scanner's state as a value, and `Scanner` is the flex scanner itself: an
  array that slides and grows, a held character, `input`, `unput` and `yymore`. `CrlTable` says what a command does to
  the table of revocation entries, `CrlScript` is the per-line machine together with an independent meaning of lines,
  `CrlGenerator` is the generator as a mutable object, and `CrlUtil` runs them together. `DerInteger` holds the
  encoding of serial numbers. The end-to-end result is `CrlUtil.UpdateCrl`: with the generated tables, for every script
  without NUL bytes, every existing CRL and every way the reads cut the script into pieces, the committed entries are
  those of a fold of commands over the complete lines up to the first failing one.
- **Static link order** (`coreconf/static_libs.py`). `LinkOrder` has the recursive walk as an object with the shared
  `seen` set, reachability by paths, and the exact conditions under which dependents come first.
- **Subject alternative names** (`cmd/certutil/certext.c`). `AltNames` parses a list in place with `CStrings` and
  splices heap nodes into a circular doubly linked list.
- **TLS buffer and parser** (`cpputil`). `DataBuffer`, `TlsParser`, and the vectors of section 3.4 of RFC 8446 in
  `VectorCoding`, over the big-endian numbers of `BigEndian`.
- **Key files and hash restarts** (`cmd/bltest/blapitest.c`). `KeyFraming` and `HashRestart`.
- **DER elements** (`cpputil/der_encode.h`). `DerEncode`, with lengths as in sections 8.1.3 and 10.1 of ITU-T X.690.
- **Batch lines** (`cmd/certutil/certutil.c`). `BatchSplitter`.

Four promises turn out not to hold everywhere, and the project states exactly when they do:

- `link_order` says "dependents before dependencies". That holds exactly if no dependency is reached from an earlier
  root than its dependent (`LinkOrder.DependentsFirstIff`, with the counterexample `DependentsNotAlwaysFirst`).
- After initialisation the current range should name a serial number without an entry. It names one with an entry
  exactly if the greatest serial number reads as 2^64 - 1 and 0 has an entry (`CrlGenerator.InitialRange`, with the
  counterexample `InitialRangeTaken`: a CRL with the serial numbers -1 and 0).
- A range `n-m` in a script names the serial numbers from n to m exactly if n is below 2^31, because its lower end is
  read with `atoi` (`CrlTable.WrittenRange`).
- The four-part hash restart covers the message exactly if its length is not 5 and is at most 2^32 - 4
  (`HashRestart.RestartTiles`; with 5 bytes the last update reads behind the message, `FiveBytes`).

Likewise a vector or a DER element reads back exactly if its body fits its length field
(`VectorCoding.ReadVectorBack`, `DerEncode.ReadElementBack`).

## Model

| member | source | states |
|---|---|---|
| `CrlgenTables.NextState` | cmd/crlutil/crlgen_lex.c:648-658 | the loop through yy_chk, yy_def and yy_meta ends, and finds the transition the tables define |
| `CrlgenTables.LookupText` | cmd/crlutil/crlgen_lex.c:295-416 | no character takes any state to the end-of-buffer state |
| `CrlgenTables.LookupNul` | cmd/crlutil/crlgen_lex.c:334-416 | NUL takes every state to the end-of-buffer state, and that one to the jam state |
| `CrlgenTables.StopRow` | cmd/crlutil/crlgen_lex.c:334-416 | the states in which the matching loop stops have no way on |
| `CrlgenTables.StartRow` | cmd/crlutil/crlgen_lex.c:334-416 | the state each character leads to from the two start states |
| `CrlgenTables.TablesWellFormed` | cmd/crlutil/crlgen_lex.c:284-416 | the generated tables have all properties the scanner relies on |
| `CrlgenRows.FromTemplate` | cmd/crlutil/crlgen_lex.c:327-416 | what the five template states give to the states that fall back on them |
| `CrlgenRows.DateRow` | cmd/crlutil/crlgen_lex.c:334-416 | behind n digits of a date, exactly the digits a date can have there lead on |
| `CrlgenRules.ChainRow` | cmd/crlutil/crlgen_lex.c:334-416 | behind n letters of a keyword, its next letter leads on, and any other letter or digit to an identifier |
| `CrlgenRules.TextStep` | cmd/crlutil/crlgen_lex.c:284-416 | for every text and character, the tables lead from the state of the text to that of the text with the character |
| `CrlgenRules.TextAccept` | cmd/crlutil/crlgen_lex_orig.l:24-146 | the state of a text accepts the first rule that matches it, and none exactly if no rule does |
| `CrlgenRules.TablesFollowRules` | cmd/crlutil/crlgen_lex_orig.l:24-146 | after any text, the automaton of the tables accepts the first rule of the rule file that matches it, or none |
| `CrlgenRules.LongestMatchFirstRule` | cmd/crlutil/crlgen_lex_orig.l:24-146 | for every text, the match is the longest beginning any rule matches, and the rule the first of those that match it |
| `CrlgenRules.EventFollowsRules` | cmd/crlutil/crlgen_lex_orig.l:34-146 | every turn of the scanner performs the action of that rule on that text |
| `Tokenizer.MaxAcceptIsLongest` | cmd/crlutil/crlgen_lex.c:646-670 | the reference match is the longest one: it is accepted, and every accepted prefix is at most as long |
| `Tokenizer.StopDecides` | cmd/crlutil/crlgen_lex.c:646-660 | behind a stop state nothing more is accepted, so the longest match is decided there |
| `Tokenizer.LongestPositive` | cmd/crlutil/crlgen_lex.c:646-670 | every non-empty text without NULs has a non-empty token |
| `Tokenizer.LongestFromStop` | cmd/crlutil/crlgen_lex.c:646-670 | the longest match of a text is already determined by a prefix that ends in a stop state |
| `Tokenizer.EofByteToken` | cmd/crlutil/crlgen_lex.c:812-838 | the byte that an unclosed quote pushes back at the end of the script is a token by itself |
| `Tokenizer.NextShrinks` | cmd/crlutil/crlgen_lex.c:627-1001 | every token leaves less to scan, also when a byte is pushed back at the end, so scanning ends |
| `Matching.ScanFinds` | cmd/crlutil/crlgen_lex.c:646-670 | the last accepting state and position kept by the matching loop are those of the longest match of what was scanned |
| `Matching.SentinelsFence` | cmd/crlutil/crlgen_lex.c:646-660 | the two sentinels stop the matching loop inside the buffer |
| `Matching.FoundIsLongest` | cmd/crlutil/crlgen_lex.c:646-670 | a match that is decided in the buffer is the longest match of the whole unread text |
| `Matching.FoundIsEndOfBuffer` | cmd/crlutil/crlgen_lex.c:662-670 | if all of the buffer was matched without a decision, the end-of-buffer action is found |
| `Matching.MatchDecides` | cmd/crlutil/crlgen_lex.c:646-670 | the matching loop finds either the longest match or the end of the buffer, and which one |
| `ScannerState.BegunScans` | cmd/crlutil/crlgen_lex.c:627-645 | undoing the NUL of the previous token gives back the unread text, with the text kept by yymore before it |
| `ScannerState.TokenTaken` | cmd/crlutil/crlgen_lex.c:273-279 | setting yytext yields the kept text and the first k unread characters, and leaves the others unread |
| `ScannerState.NextBufferScans` | cmd/crlutil/crlgen_lex.c:1018-1136 | what is being scanned is the same before and after a refill, and a refill fails exactly at the end of the text |
| `ScannerState.RefilledReads` | cmd/crlutil/crlgen_lex.c:1248-1312 | a refill inside input() keeps the unread text and yytext |
| `ScannerState.ConsumedReads` | cmd/crlutil/crlgen_lex.c:1248-1312 | input() takes the head of the unread text |
| `ScannerState.PushedState` | cmd/crlutil/crlgen_lex.c:1202-1239 | unput(c) puts c in front of the unread text |
| `ScannerState.ShiftedState` | cmd/crlutil/crlgen_lex.c:1202-1239 | shifting the buffer up for unput keeps the unread text |
| `ScannerState.PushedBack` | cmd/crlutil/crlgen_lex.c:1202-1239 | both together, whether the buffer is shifted or not |
| `Scanner.Scanner.constructor` | cmd/crlutil/crlgen_lex.c:1377-1403 | a new scanner has the whole script unread, at the beginning of a line |
| `Scanner.Scanner.Restart` | cmd/crlutil/crlgen_lex.c:1317-1328 | the buffer is empty with both sentinels, and marked as new |
| `Scanner.Scanner.ShiftDown` | cmd/crlutil/crlgen_lex.c:1048-1052 | the pending text is moved to the start of the buffer byte for byte |
| `Scanner.Scanner.MakeRoom` | cmd/crlutil/crlgen_lex.c:1061-1104 | doubling ends with room for at least one character and the sentinels, and keeps the pending text |
| `Scanner.Scanner.ReadInto` | cmd/crlutil/crlgen_lex.c:442-449 | a read delivers any non-empty part of the rest of the script that fits, or nothing at its end |
| `Scanner.Scanner.Refill` | cmd/crlutil/crlgen_lex.c:1054-1111 | exactly the bytes read stand behind the pending text |
| `Scanner.Scanner.GetNextBuffer` | cmd/crlutil/crlgen_lex.c:1018-1136 | the pending text is kept, the bytes read are appended, both sentinels are restored within capacity, and the result tells the three cases apart |
| `Scanner.Scanner.GetPreviousState` | cmd/crlutil/crlgen_lex.c:1140-1164 | running the automaton again over the pending text gives the state, last accepting state and position of the scan so far |
| `Scanner.Scanner.Match` | cmd/crlutil/crlgen_lex.c:646-660 | the loop ends in a stop state, at the second sentinel at the latest, with the state of a scan of the text |
| `Scanner.Scanner.FindToken` | cmd/crlutil/crlgen_lex.c:646-670 | the action found is that of the longest match of the unread text, or the end of the buffer |
| `Scanner.Scanner.EndOfBuffer` | cmd/crlutil/crlgen_lex.c:889-1001 | scanning goes on with the same text; the script is at its end exactly if nothing is left of it |
| `Scanner.Scanner.MatchToken` | cmd/crlutil/crlgen_lex.c:627-1001 | rule, yytext and rest are those of the longest match of the unread text, however many refills it takes |
| `Scanner.Scanner.ReadChar` | cmd/crlutil/crlgen_lex.c:1248-1312 | input() returns and removes the first unread character, also if it has to refill, and keeps yytext; None exactly at the end |
| `Scanner.Scanner.PushBack` | cmd/crlutil/crlgen_lex.c:1202-1239 | unput(c) prepends c to the unread text, also if it has to shift the buffer, and fails exactly if there is no room |
| `Scanner.Scanner.PushBackThenRead` | cmd/crlutil/crlgen_lex.c:1202-1312 | unput and then input return the character and leave the unread text as it was |
| `Scanner.Scanner.CloseQuote` | cmd/crlutil/crlgen_lex.c:812-838 | the action of the quoted-text rule moves the scanner as the reference says: it takes a closing quote and puts anything else back |
| `Scanner.Scanner.FireRule` | cmd/crlutil/crlgen_lex.c:674-884 | a fired rule produces the event and the next configuration of the reference tokenizer |
| `Scanner.Scanner.NextEvent` | cmd/crlutil/crlgen_lex.c:627-1001 | for every split of the script into reads, the event and what is left are those of the tokenizer on the whole text |
| `Scanner.ScanScript` | cmd/crlutil/crlgen_lex.c:627-1001 | scanning a whole script gives exactly the events of the script read in one piece, for every size of the buffer and every split into reads |
| `DerInteger.EncodeInjective` | lib/util/secasn1e.c:1520-1569 | different 64-bit words have different encodings, so entries of different serial numbers have different keys |
| `DerInteger.DecodeEncode` | lib/util/dersubr.c:178-213 | DER_GetInteger undoes SEC_ASN1EncodeInteger on every 64-bit word |
| `CNumbers.AtoiDecimal` | cmd/crlutil/crlgen.c:838-880 | atoi reads a decimal number as written exactly if it is below 2^31 |
| `CrlTable.FilledAt` | cmd/crlutil/crlgen.c:979-1066 | filling a range gives the entries of the range and leaves every other key as it was |
| `CrlTable.EmptiedAt` | cmd/crlutil/crlgen.c:1071-1102 | emptying a range removes the keys of the range and no other |
| `CrlTable.ExtendedAt` | cmd/crlutil/crlgen.c:634-711 | every entry of a range gets exactly one more extension, and no key comes or goes |
| `CrlTable.ApplyKeepsKeys` | cmd/crlutil/crlgen.c:92-117 | every command keeps the invariant that each key is the serial number of its entry |
| `CrlTable.EntryExtensionEffect` | cmd/crlutil/crlgen.c:634-711 | an entry extension changes exactly the entries in the current range, by one extension each, and succeeds exactly if there is one |
| `CrlTable.AddCertEffect` | cmd/crlutil/crlgen.c:979-1066 | addcert adds exactly the serial numbers of its range below the first one present, fails exactly if there is one, and sets the current range |
| `CrlTable.RmCertEffect` | cmd/crlutil/crlgen.c:1071-1102 | rmcert removes exactly the entries of its range and sets the current range |
| `CrlTable.WrittenRange` | cmd/crlutil/crlgen.c:838-880 | a range written n-m is read as written exactly if n is below 2^31; a single number is always read as written |
| `CrlScript.StepConsistent` | cmd/crlutil/crlgen.c:1349-1491 | every token keeps: the context is set exactly if one live record of its kind exists, and extension fields fill a prefix of the ten slots |
| `CrlScript.RunConsistent` | cmd/crlutil/crlgen.c:1349-1491 | that invariant holds after every token sequence |
| `CrlScript.LineRun` | cmd/crlutil/crlgen.c:1349-1491 | the tokens of a line leave the command that the independent meaning of the line gives, or fail exactly if it has none; a second keyword is refused |
| `CrlScript.RunIsFold` | cmd/crlutil/crlgen.c:1349-1388 | running all tokens is the same as folding the commands of the complete lines up to the first failing one |
| `CrlScript.FoldKeepsKeys` | cmd/crlutil/crlgen.c:92-117 | after every script each key is the serial number of its entry |
| `CrlScript.CurrentRangeIsLast` | cmd/crlutil/crlgen.c:789-1102 | after every script the current range is the last one set by addcert, also a clashing one, by rmcert or by range, or the initial one |
| `CrlScript.OnlyNewLineFrees` | cmd/crlutil/crlgen.c:1314-1388 | a newline frees the live record once, also if its command fails, returns to the unknown context and counts the line; no other token does |
| `CrlScript.LineNumber` | cmd/crlutil/crlgen.c:1349-1388 | after every run, also a failing one, the line counter has grown by the newlines processed |
| `CrlGenerator.TableOfKeys` | cmd/crlutil/crlgen.c:789-830 | the initial table has exactly the serial numbers of the existing entries |
| `CrlGenerator.MaxSerialIsMax` | cmd/crlutil/crlgen.c:789-830 | the serial number found is at least that of every entry |
| `CrlGenerator.InitialRange` | cmd/crlutil/crlgen.c:789-830 | the initial range is one serial number, and the exact condition under which it already has an entry |
| `CrlGenerator.InitialRangeTaken` | cmd/crlutil/crlgen.c:789-830 | a CRL for which it has one: serial numbers -1 and 0 |
| `CrlGenerator.Generator.constructor` | cmd/crlutil/crlgen.c:1495-1529 | the generator starts in the unknown context, on line 1, with the table of the existing CRL |
| `CrlGenerator.Generator.CreateNewLangStruct` | cmd/crlutil/crlgen.c:1432-1491 | a keyword allocates the record of its context, and fails if the line has one already |
| `CrlGenerator.Generator.SetNextExtension` | cmd/crlutil/crlgen.c:1271-1303 | a field goes into the next free slot, at most ten of them |
| `CrlGenerator.Generator.SetNextData` | cmd/crlutil/crlgen.c:1391-1429 | data goes into the record of the current context, if that takes data of its type |
| `CrlGenerator.Generator.DestroyTempData` | cmd/crlutil/crlgen.c:1314-1346 | the live record is freed once and the context is unknown again |
| `CrlGenerator.Generator.SetNewRange` | cmd/crlutil/crlgen.c:838-880 | the current range is set, or left alone if the text is not a range |
| `CrlGenerator.Generator.FillRange` | cmd/crlutil/crlgen.c:979-1066 | the loop adds the entries below the first one present and stops there |
| `CrlGenerator.Generator.AddCerts` | cmd/crlutil/crlgen.c:979-1066 | the table and the range are those of the addcert command |
| `CrlGenerator.Generator.EmptyRange` | cmd/crlutil/crlgen.c:1071-1102 | the loop removes every entry of the range |
| `CrlGenerator.Generator.RmCerts` | cmd/crlutil/crlgen.c:1071-1102 | the table and the range are those of the rmcert command |
| `CrlGenerator.Generator.ExtendEntries` | cmd/crlutil/crlgen.c:634-711 | the loop extends every entry of the current range, and succeeds if there was one |
| `CrlGenerator.Generator.AddExtensionFields` | cmd/crlutil/crlgen.c:941-973 | a CRL extension is appended, an entry extension is given to the entries of the range, any other name fails |
| `CrlGenerator.Generator.UpdateForContext` | cmd/crlutil/crlgen.c:1113-1263 | the command of the record is applied, whatever the context |
| `CrlGenerator.Generator.UpdateCrl` | cmd/crlutil/crlgen.c:1349-1388 | a newline applies the command, frees the record also if the command failed, and counts the line |
| `CrlGenerator.Generator.Perform` | cmd/crlutil/crlgen_lex.c:674-884 | the calls of the rule actions are the steps of the per-line machine |
| `CrlGenerator.Generator.Commit` | cmd/crlutil/crlgen.c:715-757 | an array of exactly n entries and a null terminator, each entry of the table exactly once; no array for an empty table |
| `CrlGenerator.CommitEntries` | cmd/crlutil/crlgen.c:715-757 | that array for any table that is not empty |
| `CrlGenerator.StoreEntry` | cmd/crlutil/crlgen.c:128-147 | one entry is stored behind those before it |
| `CrlGenerator.StoreEntries` | cmd/crlutil/crlgen.c:715-757 | the enumeration stores every entry once, in whatever order, within the array |
| `CrlUtil.RunNext` | cmd/crlutil/crlgen_lex.c:627-1001 | the run over the tokens of a text is one step followed by the run over what is left |
| `CrlUtil.Turn` | cmd/crlutil/crlgen_lex.c:674-884 | one rule fires and its action takes one step of the generator |
| `CrlUtil.StartCrlGen` | cmd/crlutil/crlgen_lex.c:1759-1774 | scanner and generator together run the machine over the tokens of the whole script |
| `CrlUtil.UpdateWith` | cmd/crlutil/crlutil.c:538-581 | the same as `UpdateCrl` for any well-formed tables |
| `CrlUtil.UpdateCrl` | cmd/crlutil/crlutil.c:538-581 | with the generated tables and for every script, however it is read, entries, extensions and dates are those of the fold over its complete lines up to the first failing one, and exactly these entries are committed, each once; success is that every line, also an incomplete last one, went through |
| `LinkOrder.Walk.Visit` | coreconf/static_libs.py:55-61 | for every graph, cyclic or not, a visit ends and appends new targets only, each once, all reached from its target, in post-order, with all their dependencies seen |
| `LinkOrder.Walk.VisitDeps` | coreconf/static_libs.py:59-60 | the dependency loop does so for all dependencies of a target, and sees every one of them |
| `LinkOrder.VisitedPiece` | coreconf/static_libs.py:63-68 | the reversed subtree of a root is exactly what it reaches and no earlier root does |
| `LinkOrder.VisitRoot` | coreconf/static_libs.py:63-68 | one turn of the loop over the roots gives the piece of its root |
| `LinkOrder.ComputeLinkOrder` | coreconf/static_libs.py:50-69 | the list is the concatenation of the pieces of the roots |
| `LinkOrder.ListedIffReached` | coreconf/static_libs.py:50-69 | a target is listed exactly if some root reaches it |
| `LinkOrder.ListedOnce` | coreconf/static_libs.py:50-69 | no target is listed twice |
| `LinkOrder.PiecesDisjoint` | coreconf/static_libs.py:63-68 | pieces of different roots have no target in common |
| `LinkOrder.DependencyOrder` | coreconf/static_libs.py:55-69 | a dependency stands behind its dependent, or was listed for an earlier root, or lies on a cycle with it |
| `LinkOrder.OvertakenIsBack` | coreconf/static_libs.py:63-68 | a dependency reached from an earlier root than its dependent is listed in an earlier piece |
| `LinkOrder.BackIsOvertaken` | coreconf/static_libs.py:63-68 | and the other way round |
| `LinkOrder.EdgeOrder` | coreconf/static_libs.py:55-69 | for acyclic graphs, a dependent stands before its dependency exactly if the dependency is not reached from an earlier root |
| `LinkOrder.DependentsFirstIff` | coreconf/static_libs.py:51-69 | for acyclic graphs, dependents come first throughout exactly if no dependency is reached from an earlier root than its dependent |
| `LinkOrder.DependentsNotAlwaysFirst` | coreconf/static_libs.py:51-69 | an acyclic graph and roots for which the list, whatever it is, does not have dependents first |
| `LinkOrder.BuiltHas` | coreconf/static_libs.py:84-84 | the filtered list has exactly the listed targets that are built |
| `LinkOrder.BuiltKeepsOrder` | coreconf/static_libs.py:84-84 | filtering keeps the relative order |
| `LinkOrder.LinkedLibraries` | coreconf/static_libs.py:81-87 | the libraries are exactly the built targets that some root reaches, each once, and for acyclic graphs the order of each dependency among them is known exactly |
| `CStrings.CutAt` | cmd/certutil/certext.c:803-807 | a NUL written into a string leaves the part before it, and the part behind it as a string of its own |
| `CStrings.StrChr` | cmd/certutil/certext.c:803-803 | the position of a character in the string, or its end |
| `AltNames.ItemsJoin` | cmd/certutil/certext.c:790-807 | texts without commas, joined with commas, are the items of the list |
| `AltNames.ParseJoin` | cmd/certutil/certext.c:790-934 | such a list reads back as one name per text, in order, for the types that take any string |
| `AltNames.ReadEntries` | cmd/certutil/certext.c:808-934 | texts with and without types are read up to the first that cannot be a name of its type |
| `AltNames.ParseEntries` | cmd/certutil/certext.c:779-934 | a list of texts with and without types is accepted exactly if each text can be a name of the last type given up to it, and reads back as these names in order |
| `AltNames.Append` | cmd/certutil/certext.c:927-933 | a fresh node stands at the end of the doubly linked chain, and the chain is otherwise as before |
| `AltNames.CutItem` | cmd/certutil/certext.c:799-807 | the item is cut out in place, without a leading comma, and the rest of the list is untouched |
| `AltNames.CutType` | cmd/certutil/certext.c:811-831 | a type before a colon is cut off in place and looked up; without a colon the type stays |
| `AltNames.TakeItem` | cmd/certutil/certext.c:808-925 | an item is skipped, refused or accepted as its text and type say; the rest of the list is untouched |
| `AltNames.ParseStep` | cmd/certutil/certext.c:790-934 | one turn of the loop extends the chain by what the item brings, and the remaining items bring the rest |
| `AltNames.ParseNames` | cmd/certutil/certext.c:790-934 | the loop builds a fresh chain of exactly the accepted names, in input order, up to the first refused item |
| `AltNames.SpliceIn` | cmd/certutil/certext.c:939-947 | a ring and a chain become one ring: next and prev are mutually inverse all around, the chain behind the ring |
| `AltNames.Close` | cmd/certutil/certext.c:948-953 | a chain becomes a ring |
| `AltNames.NameList.AddSubjectAltNames` | cmd/certutil/certext.c:760-955 | on success the ring is the old one followed by one node per accepted name; on failure nothing is changed; a missing list fails |
| `AltNames.NameList.AddIfGiven` | cmd/certutil/certext.c:2177-2188 | a list that is given is added, also after one that failed, and the results are combined |
| `AltNames.AddAltNames` | cmd/certutil/certext.c:2171-2189 | the e-mail, DNS and general lists together make one ring of what the three bring |
| `AltNames.TogetherThree` | cmd/certutil/certext.c:2171-2189 | what three lists bring is the concatenation of the names of those that succeed, and success is that all do |
| `BigEndian.LowBytesValue` | cpputil/databuffer.cc:58-63 | n bytes of a number read back as the number modulo 256 to the n |
| `BigEndian.LowBytesSuffix` | cpputil/databuffer.cc:58-63 | the last n bytes of a 32-bit number in network order are its low n bytes |
| `DataBuffer.OverwriteByte` | cpputil/databuffer.cc:34-54 | every byte of a written buffer: new bytes, old bytes, or zeros in a gap |
| `DataBuffer.OverwritePads` | cpputil/databuffer.cc:34-54 | writing is the same as padding with zeros and then overwriting |
| `DataBuffer.OverwriteAt` | cpputil/databuffer.cc:34-54 | what is written stands at its index, nothing before it changes, and the length is the larger of the two |
| `DataBuffer.WriteReadInt` | cpputil/databuffer.cc:58-108 | a number written in n bytes is read back modulo 256 to the n |
| `DataBuffer.SpliceBack` | cpputil/databuffer.cc:65-93 | splicing the removed bytes back in undoes a splice |
| `DataBuffer.DataBuffer.Allocate` | cpputil/databuffer.h:47-51 | the buffer is a new array of zeros |
| `DataBuffer.DataBuffer.Truncate` | cpputil/databuffer.h:53-53 | the contents are cut to at most l bytes |
| `DataBuffer.DataBuffer.Assign` | cpputil/databuffer.cc:21-30 | the contents are a copy of the bytes, in a new array; nothing for a null pointer |
| `DataBuffer.DataBuffer.Grow` | cpputil/databuffer.cc:36-48 | a new array of the new length with the old contents, padded with zeros up to the index |
| `DataBuffer.DataBuffer.Write` | cpputil/databuffer.cc:34-54 | the contents are the old ones overwritten at the index; the array is kept exactly if the bytes fit |
| `DataBuffer.DataBuffer.WriteInt` | cpputil/databuffer.cc:58-63 | the low bytes of the number are written, the most significant first |
| `DataBuffer.DataBuffer.WriteInside` | cpputil/databuffer.cc:76-90 | a write that fits never reallocates |
| `DataBuffer.DataBuffer.Splice` | cpputil/databuffer.cc:65-93 | head, new bytes and tail, in an array of exactly that size, also if the new bytes are the buffer's own |
| `DataBuffer.DataBuffer.Append` | cpputil/databuffer.h:78-78 | the contents of both buffers; appending a buffer to itself doubles it |
| `DataBuffer.DataBuffer.Read` | cpputil/databuffer.cc:97-108 | the big-endian value of the bytes without any loss in 64 bits, or failure exactly if they are not all there |
| `DataBuffer.Equal` | cpputil/databuffer.h:111-114 | true exactly if the contents are equal |
| `VectorCoding.ReadVectorBack` | cpputil/tls_parser.cc:64-70 | a vector reads back as its body with the rest left over, exactly if the body is shorter than 256 to the len_size |
| `VectorCoding.ReadAllVectors` | cpputil/tls_parser.cc:64-70 | vectors one behind the other are read back in order, whatever follows them |
| `TlsParser.WriteAllAppends` | cpputil/tls_parser.h:143-147 | vectors written from the end of a buffer on are appended to it |
| `TlsParser.WriteThenRead` | cpputil/tls_parser.h:143-147 | every list of bodies that fit is written back to back and read back as the same list with nothing remaining |
| `TlsParser.WriteVariables` | cpputil/tls_parser.h:143-147 | writing buffers one behind the other with WriteVariable gives the vectors of their contents |
| `TlsParser.ReadVariables` | cpputil/tls_parser.cc:64-70 | k reads with ReadVariable give the bodies and the rest of k vectors, or fail if one of them does |
| `TlsParser.WriteAndReadBack` | cpputil/tls_parser.h:143-153 | buffers written into an empty buffer are read back by a parser of it as the same list, and the parser is then at the end |
| `TlsParser.WriteVariable` | cpputil/tls_parser.h:143-147 | the length, cut to 32 bits, and then the body are written at the index; the end is returned |
| `TlsParser.TlsParser.constructor` | cpputil/tls_parser.h:149-153 | the parser has its own copy of the bytes, all of them unread |
| `TlsParser.TlsParser.ReadByte` | cpputil/tls_parser.cc:11-18 | the first unread byte is returned and consumed; failure exactly at the end |
| `TlsParser.TlsParser.ReadInt` | cpputil/tls_parser.cc:20-37 | the value of the next bytes without any loss in 32 bits; a read that fails for lack of bytes consumes those there are |
| `TlsParser.TlsParser.ReadBuffer` | cpputil/tls_parser.cc:39-47 | the next n bytes are copied and consumed, or nothing happens |
| `TlsParser.TlsParser.ReadFromMark` | cpputil/tls_parser.cc:49-62 | n bytes from the mark are copied and the position stays, or nothing happens |
| `TlsParser.TlsParser.ReadVariable` | cpputil/tls_parser.cc:64-70 | body, success and rest are those of reading one vector |
| `TlsParser.TlsParser.Skip` | cpputil/tls_parser.cc:72-78 | n bytes are consumed, or nothing happens |
| `TlsParser.TlsParser.SkipVariable` | cpputil/tls_parser.cc:80-86 | success and rest are those of reading one vector, the same as for ReadVariable |
| `KeyFraming.SerializeKey` | cmd/bltest/blapitest.c:304-321 | the encoder is given the items with their lengths in front, one behind the other |
| `KeyFraming.ReadLength` | cmd/bltest/blapitest.c:329-332 | the four bytes as a signed 32-bit number |
| `KeyFraming.ReadItem` | cmd/bltest/blapitest.c:329-344 | the item at the position is read, and the position moves to the items behind it |
| `KeyFraming.KeyFromFiledata` | cmd/bltest/blapitest.c:323-346 | exactly items ns to ni - 1 are stored, in consecutive places, and no other place changes |
| `KeyFraming.SerializedReads` | cmd/bltest/blapitest.c:304-346 | whatever items shorter than 2^31 are serialized, and whatever follows them, they are read back |
| `KeyFraming.ReadInParts` | cmd/bltest/blapitest.c:323-346 | reading up to k and then from k on gives the same as reading everything |
| `KeyFraming.EcKeyFromFiledata` | cmd/bltest/blapitest.c:379-400 | the two reads of an EC key give its three items |
| `HashRestart.Restart` | cmd/bltest/blapitest.c:2005-2041 | the updates made for a message of n bytes, with 32-bit wrap-around, and exactly when they cover it |
| `HashRestart.RestartTiles` | cmd/bltest/blapitest.c:2005-2041 | the updates cover the message once, in order and without gaps, exactly if n is not 5 and n is at most 2^32 - 4 |
| `HashRestart.FiveBytes` | cmd/bltest/blapitest.c:2005-2041 | with five bytes there is a fourth update behind the message |
| `HashRestart.FeedTiles` | cmd/bltest/blapitest.c:2005-2041 | updates that cover a message once, in order, hash it, for every hash that folds over its bytes |
| `HashRestart.RestartedHash` | cmd/bltest/blapitest.c:2005-2041 | all updates are within the message, and the restarted hash is the one-shot hash |
| `DerEncode.DerTagged` | cpputil/der_encode.h:25-31 | the element built can be read back as its tag and body, whatever follows it, exactly if the body is shorter than 2^24 |
| `DerEncode.Cat` | cpputil/der_encode.h:33-37 | the concatenation of the parts |
| `DerEncode.ReadLengthBack` | cpputil/der_encode.h:16-23 | the value read from the length octets of any n, which is its low 24 bits from 2^16 on |
| `DerEncode.DerLenShortest` | cpputil/der_encode.h:16-23 | of all definite-form length octets of n, DerLen gives the shortest, and the only ones that short |
| `DerEncode.ReadElementBack` | cpputil/der_encode.h:25-31 | an element reads back, with the rest left over, exactly if its body is shorter than 2^24 |
| `DerEncode.CatEncodes` | cpputil/der_encode.h:33-37 | Cat of the encodings of elements is the encoding of the list of elements |
| `DerEncode.DecodeEncodeAll` | cpputil/der_encode.h:39-44 | nested elements decode to the elements they were built from |
| `DerEncode.EncodeAllInjective` | cpputil/der_encode.h:33-44 | equal encodings of lists of elements imply equal lists |
| `DerEncode.PrefixFree` | cpputil/der_encode.h:25-44 | no encoding of an element is a proper prefix of another one's |
| `BatchSplitter.SplitJoined` | cmd/certutil/certutil.c:3946-3976 | arguments joined with any white space, quoted where needed, split back, whatever word they follow |
| `BatchSplitter.SplitJoinedLine` | cmd/certutil/certutil.c:3946-3976 | a line of a first word and joined arguments splits back into exactly these, and no quote is missing |
| `BatchSplitter.StrSpace` | cmd/certutil/certutil.c:3952-3952 | the position of the first white space of the string, or its end |
| `BatchSplitter.Blank` | cmd/certutil/certutil.c:3953-3956 | white space is overwritten with NULs, which ends the word before it and touches no argument found so far |
| `BatchSplitter.CloseQuote` | cmd/certutil/certutil.c:3962-3966 | a quoted argument ends at its closing quote, with the rest of the line behind it |
| `BatchSplitter.TakeArg` | cmd/certutil/certutil.c:3957-3974 | the next argument, bare, quoted, or with a missing quote |
| `BatchSplitter.NextArg` | cmd/certutil/certutil.c:3952-3975 | one turn of the loop: the arguments found and those still to come are the same, and the position moves strictly right |
| `BatchSplitter.SplitInPlace` | cmd/certutil/certutil.c:3946-3976 | for every line, the pointers point to exactly the arguments the line splits into, all within the buffer, and the flag tells whether a quote is missing |

## Left out

- The generation of the tables by flex; the class of NUL in `yy_get_previous_state` and `yy_try_NUL_trans`, which matters for NUL bytes in scripts only.
- NUL bytes in scripts, read errors, interactive terminals and fatal exits of the scanner.
- `yy_scan_buffer`, `yy_switch_to_buffer` and the scanner's state across separate runs; what the scanner object is like after the end of the script is not stated.
- The last accepting state and position are passed along as values; the scanner keeps them in static variables.
- Memory exhaustion, and the wrap-around of the buffer size of the scanner beyond 2^30 characters and of `fpos` in `key_from_filedata` beyond 2^31 bytes.
- `CERT_AddExtension` is an append; the encodings of `authKeyId` and `issuerAltNames` are an arbitrary function; `crlgen_GetGeneralName` is not modelled.
- An `invalidityDate` line without its third field passes a null pointer to `strlen`; the model takes the line as failing.
- `atoi` beyond the range of `int` is taken as the low 32 bits, as on 64-bit glibc; the C standard leaves it undefined.
- The hash table of entries is a map and its enumeration an arbitrary order; temporary records are values with counters of allocations and frees, so dangling pointers and leaks of strings are not modelled.
- Failures of `CRLGEN_InitCrlGeneration` and `CRLGEN_ExtHandleInit`, signing, and storing of CRLs.
- `load_graph`, `target_name` and printing in `static_libs.py`; `is_built` is an arbitrary predicate.
- Conversions of directory names, addresses, object identifiers and other names are an arbitrary function that may fail; the further cut of an other-name at its semicolon happens inside it.
- DataBuffer.DataBuffer.Splice: an index beyond the length is a precondition, because the gap-filling branch addresses the old buffer.
- DataBuffer.DataBuffer.Write: bytes of the buffer's own storage are excluded where the buffer grows, because the array is then freed before they are copied, and where they overlap their target, because `memcpy` does not allow that.
- DataBuffer.DataBuffer.Assign: the buffer's own storage is excluded, because it is freed before it is copied.
- TlsParser.WriteVariable: the target itself as the body is excluded, because writing the length in front moves or frees the bytes that are to be copied.
- TlsParser.TlsParser.ReadFromMark: a mark beyond the end is a precondition, because the remaining length then wraps around and the bytes lie outside the buffer.
- Scanner.Scanner.ReadChar: at the end of the buffer it requires yytext to start at or before the position, and in a buffer just restarted at the position, as it does whenever the scanner calls it.
- Move construction and printing of buffers; version mappings in `tls_parser.h`.
- The base64 layer of key files; other key types, which call the same reader with other counts.
- `Flatten` and `Resurrect` of hash contexts; the comparison of the restored context does not change the hash.
- The wrappers `Seq`, `Ctx0`, `OctetStr` and `OidVal` are constructors of `DerEncode.Tree`; `OctetStr` contents are plain bytes, also where they hold another encoding.
- Reading and continuing batch lines, and running the commands they hold.
