# Identifold, verified in Dafny

Identifold gives one entity three identifiers: a MID (a UUIDv7 in its 36-character form), a PID (a TypeID: public
prefix, underscore, base-32 suffix) and a REF (a short human reference with a check symbol, resolved through storage).
This project models the logic behind them and proves what the library is for:

* **Codec.** MID and PID convert back and forth exactly, on all 128-bit values; dictionary order of MIDs, dictionary
  order of PIDs and numeric order coincide; the bit-array codec of the Swift and PHP ports computes what the
  shift-and-mask codec of the Rust port computes; the test of the first suffix symbol is exactly what keeps the
  Rust loop inside 128 bits.
* **References.** The accepted set of the parser is characterised exactly, formatting and parsing are inverse, the
  modulo-37 check symbol detects every substitution and (for random references) every transposition, and a
  prefix-free registry makes the reading of a hyphenless reference unique and independent of registration order.
* **Allocation.** Two lock disciplines are modelled as state machines over their SQL statements, with any number of
  clients, faults and rollbacks anywhere, commits whose answer is lost and rollbacks that fail: SQLite's write lock, and
  MySQL's row locks with the replay read in front of the counter lock, a five-attempt retry and a FIFO gate.
* **Service.** Over every run of `create` calls on any number of connections, a REF once stored resolves for ever to
  exactly its MID and namespace, nothing else resolves to anything, and different MIDs never share a stored REF. A REF
  that `create` returned is stored exactly when no transaction was left open on its connection.

## Layout

| files | what they hold |
|---|---|
| `Wrappers`, `Errors`, `Positional`, `Alphabet`, `Text`, `DecimalText` | results, error codes, digit arithmetic in any base, alphabets, string operations |
| `MachineId`, `TypeId`, `BitCodec`, `PublicId` | the three forms of the 128-bit identifier |
| `Checksum`, `Hyphenation`, `Registry`, `References`, `Formatting`, `StorageText`, `RustNormalize`, `Unified` | registry, references, their parsers and the classifier |
| `Tables` | the three storage tables with the keys of the schema, and allocation as one atomic step |
| `SqliteAllocator`, `SqliteProtocol` | the SQLite adapter: one connection in imperative form; any number of them interleaved |
| `MySqlRows`, `MySqlProtocol`, `MySqlConservation`, `MySqlRuns`, `MySqlCalls` | the MySQL adapter: what a transaction writes; interleaved connections; exactly what their runs keep; particular runs; a call by itself |
| `Gate`, `MySqlAdapter` | the gate; transaction, retry loop and gate in imperative form |
| `MySqlReservations` | reservations on the gated connection, which do not take the gate |
| `Service`, `Creates` | `create` and the resolver over the SQLite connections; the attempts of a random create |
| `Refusals` | which inputs are refused, and with which error |

Where the original changes things step by step (checksum and codec loops, the registry loop, candidate creation, the
adapters, the gate) the model does too, and each such method is proved equal to a specification function about which
the lemmas speak. Protocols are state machines: a `State`, a total `Apply(state, action)` in which an action that is not
enabled does nothing, and a `Run` over a sequence of actions; safety is stated for every run.

## Findings

* **A failing ROLLBACK on MySQL can skip a number.** The Swift adapter discards ROLLBACK errors with `try?`. When the
  connection lives, the next START TRANSACTION, of the retry or of a later call, commits what the failed attempt had
  written: behind the counter update and in front of the binding insert that is a counter step without its binding, and
  the number is never given out (`NumberSkipped`, `EmptySkips`, `SkippingIsTorn`). Keys hold, bindings stay and returned
  numbers are right in all such runs (`RunInvariant`, `AttemptsKeep`). Conservation, the bijection and "nothing or one
  whole allocation" hold exactly in the runs in which no START TRANSACTION commits such rows
  (`RunConservesExactly`, `EveryRunBijective`, `RunAtomicExactly`, `AttemptsWholeExactly`); within one call the pattern of
  failing statements and rollbacks alone decides (`TornExactly`). An example is a lock wait timeout (1205) at the insert;
  a deadlock (1213) has the server roll back by itself.
* **A failing ROLLBACK on SQLite can void a returned REF.** The TypeScript adapter swallows the error too, and the
  transaction stays open on the connection. The tables of allocation are safe: the next BEGIN there fails, and nothing
  of the transaction is ever committed. But `reserve` and the lookup share the connection. Until that next allocation
  rolls back they work inside the open transaction: `create` returns a REF that no other connection sees
  (`ReserveReference`, `CreatedDurableExactly`), the lookup answers from uncommitted rows (`LeftReadable`), the rollback
  discards the row (`LeftDiscarded`), and the same REF can be returned for another MID (`VoidedReservation`,
  `VoidedReference`). A reservation is durable exactly when no transaction was open on its connection
  (`ReservationDurableExactly`), and on an idle connection one is open exactly when the last ROLLBACK that met an open
  transaction there failed (`LeftOpenExactly`).
* **A reservation on the gated MySQL connection can be lost without any failing ROLLBACK.** Only `allocate` takes the
  gate; `reserve` uses the same connection at any time, so its row may fall into the transaction of a running
  allocation. When that allocation is refused, its ROLLBACK discards the row although `reserve` answered true, and the
  reference can be given out again (`MySqlReservations.VoidedReservation`). In every run such a reservation survives
  exactly when no transaction was open or no ROLLBACK works before the next commit (`ReservationFate`).
* **A MySQL counter without bindings can change its namespace.** The upsert of the Swift MySQL adapter ends in
  `ON DUPLICATE KEY UPDATE namespace = VALUES(namespace)`. Counters are also unique in (reference prefix, scope), so when
  another namespace holds that pair and has no bindings yet, the statement moves its counter row to the calling namespace
  (`SeededCounterTaken`, `SeededExample`; one commit: `CommitKeepsNamespaces`). From given tables all runs are safe from
  this exactly when every counter has a binding (`NamespacesSafeExactly`), and, rollbacks that leave rows behind set
  aside, exactly when every counter without one is at its maximum (`WholeRunsSafeExactly`). SQLite answers the same clash
  with its branch for a missing counter row (`NoCounterRow`).
* **The classifier is narrower than the parser.** It passes on exactly those acceptable references that begin with at
  most eight letters (`ClassifierGap`); every random namespace has hyphenless references beyond it
  (`HyphenlessRefused`).
* **The registry does not validate `scope`.** spec/namespaces.md:25 has registries reject unsupported values; the code
  accepts any text and treats all but `calendar-year` as unscoped (`WeeklyAccepted`). With upper-case reference prefixes,
  code and specification agree on a collection exactly unless it is accepted with an unsupported scope (`ScopeGap`). The
  specification's list speaks of ASCII letters only, whereas the code also refuses lower-case reference prefixes
  (`LowerRefused`, `DocumentedExactly`). The model follows the code.

## Model

| member | source | states |
|---|---|---|
| Positional.ValueOrder | packages/rust/src/lib.rs:86-109 | Numeric order of equally long digit sequences is their lexicographic order, in any base. |
| Positional.DigitAt | packages/rust/src/lib.rs:86-94 | Each of the fixed-width digits of a number is that number shifted down and masked. |
| Alphabet.TypeIdAlphabet | packages/rust/src/lib.rs:7-7 | The suffix alphabet is the one ascending text of the digits and of the lower-case letters other than i, l, o and u. |
| Alphabet.DataAlphabet | spec/checksums.md:5-9 | The data alphabet is the one ascending text of the digits and of the capitals other than I, L, O and U. |
| Alphabet.CheckAlphabet | spec/checksums.md:11-15 | The check symbols are the data symbols in their order, and `*`, `~`, `$`, `=`, `U` for the remainders 32 to 36. |
| Alphabet.CaseExactly | packages/typescript/src/reference.ts:175-175 | Changing case exchanges a lower-case letter and the capital at the same place among the letters, and nothing else. |
| MachineId.ParseIsCanonical | packages/rust/src/lib.rs:40-60 | An accepted MID is returned in lower case, and the result is a fixed point of parsing. |
| MachineId.MachineParsed | packages/rust/src/lib.rs:40-60 | A text is accepted exactly when its lower-case form is a MID, which is the result. |
| MachineId.FormatThenNumber | packages/rust/src/lib.rs:69-84 | Every 128-bit number survives formatting as 8-4-4-4-12 hexadecimal and reading back. |
| MachineId.NumberThenFormat | packages/rust/src/lib.rs:69-84 | Every text of that shape is the formatted form of the number it writes, which fits 128 bits. |
| MachineId.NumberIsMachineId | packages/rust/src/lib.rs:53-59 | A 128-bit number formats to a valid MID if and only if its version bits are 7 and its variant bits are 10 (section 5.7 of RFC 9562). |
| MachineId.MachineOrder | vectors/ordering.json:6-18 | Dictionary order of canonical MIDs is the numeric order of their 128-bit values. |
| TypeId.EncodeSuffix | packages/rust/src/lib.rs:86-94 | The shift-and-mask loop writes exactly the 26 base-32 digits of the number. |
| TypeId.DecodeSuffix | packages/rust/src/lib.rs:96-109 | The shift-and-or loop in 128-bit arithmetic returns the positional value of the suffix, or refuses wrong length, high first symbol or foreign symbol. |
| TypeId.SuffixAlphabet | packages/rust/src/lib.rs:86-109 | A symbol occurs in the suffix of some 128-bit number, and in some suffix that decodes, exactly when it is a digit or a lower-case letter other than i, l, o and u. |
| TypeId.GuardExact | packages/rust/src/lib.rs:97-99 | Without its guard the 26 shifts give the positional value if and only if the first symbol is at most 7, and that is exactly when the value fits 128 bits. |
| TypeId.UnguardedWraps | packages/rust/src/lib.rs:101-108 | Without the guard the loop computes the value modulo 2 to the 128, for any number of symbols. |
| BitCodec.SuffixFromBits | packages/swift/Sources/Identifold/Identifiers.swift:65-82 | Two zero bits and the bits of the bytes, cut in fives, give the same suffix as the Rust encoder, for all 32-nibble inputs. |
| BitCodec.HexFromBits | packages/swift/Sources/Identifold/Identifiers.swift:100-119 | Decoding through a bit array accepts what the Rust decoder accepts and gives the hexadecimal of the same number. |
| BitCodec.BitsOfHex | packages/php/src/Identifold.php:41-45 | The bit string is two zeros followed by the eight bits of each byte. |
| BitCodec.SymbolsOfBits | packages/php/src/Identifold.php:46-49 | Each five bits become one suffix symbol, and nothing else. |
| BitCodec.BitsOfSuffix | packages/php/src/Identifold.php:71-78 | Each suffix symbol becomes five bits; a foreign symbol is refused exactly as by the Rust decoder. |
| BitCodec.TopBitsClear | packages/php/src/Identifold.php:79-81 | After the guard on the first symbol the check of the two leading bits can never fire. |
| BitCodec.HexOfBits | packages/php/src/Identifold.php:82-85 | Each eight bits become two hexadecimal symbols. |
| PublicId.DecodeEncode | packages/rust/src/lib.rs:86-109 | Decoding an encoded number returns it, for every number below 2 to the 128. |
| PublicId.EncodeDecode | packages/rust/src/lib.rs:86-109 | Every decodable suffix is the canonical suffix of its number. |
| PublicId.MachineToPublicToMachine | packages/rust/src/lib.rs:111-140 | For every MID and public prefix, underscores in the prefix included, the PID is built and parses back to both. |
| PublicId.PublicToMachineToPublic | packages/rust/src/lib.rs:111-140 | For every accepted PID, rebuilding it from the parsed MID and prefix gives the same string. |
| PublicId.PublicOrder | vectors/ordering.json:6-18 | For one prefix, dictionary order of PIDs, dictionary order of MIDs and numeric order coincide. |
| Checksum.CalculateReferenceCheckSymbol | packages/typescript/src/reference.ts:34-55 | The incremental symbol is that of the whole base-32 value modulo 37; empty payloads and foreign symbols are refused. |
| Checksum.CalculateSequentialCheckSymbol | packages/typescript/src/reference.ts:57-77 | The same for the decimal value of scope and sequence. |
| Checksum.ProductVanishes | packages/typescript/src/reference.ts:51-51 | 37 is prime: a product vanishes modulo 37 exactly when a factor does. |
| Checksum.PowersOf32 | packages/typescript/src/reference.ts:51-51 | 32 is a primitive root modulo 37: its powers are 1 exactly at multiples of 36 and -1 exactly at odd multiples of 18. |
| Checksum.PowersOfTen | packages/typescript/src/reference.ts:73-73 | 10 has order three modulo 37. |
| Checksum.SubstitutionDetected | packages/typescript/src/reference.ts:203-219 | Replacing any one symbol of a checked body, the check symbol included, makes it unchecked, in both alphabets and for every length. |
| Checksum.Transposition | packages/typescript/src/reference.ts:203-219 | An exchange of two different symbols at any two positions survives exactly under a stated condition on the power of the base. |
| Checksum.RandomTransposition | packages/typescript/src/reference.ts:203-219 | Random bodies: an exchange survives exactly at a distance that is a multiple of 36, or with a check symbol that is a data symbol at an offset of 18 modulo 36. |
| Checksum.ProfileTransposition | packages/typescript/src/reference.ts:203-219 | No exchange of two different symbols survives in payloads of up to 12 symbols, so in none of the lengths 8, 10 and 12. |
| Checksum.SequentialTransposition | packages/typescript/src/reference.ts:251-264 | Decimal bodies: an exchange of different payload digits survives exactly when their distance is a multiple of three; one with the check symbol never does. |
| Registry.CreateNamespaceRegistry | packages/typescript/src/registry.ts:60-127 | The one-pass loop succeeds if and only if every definition is valid, public prefixes are distinct and reference prefixes pairwise prefix-free; it keeps all definitions in order with exact indexes, each registered as it was given: own prefixes, profile lengths 8, 10 and 12 with 10 by default, own width, own scope or `none`; and an error is that of a first offending definition. |
| Registry.RegisteredExactly | packages/typescript/src/registry.ts:130-205 | A definition registers as another exactly when that has its prefixes, the length of its profile (`compact` 8, `standard` or none 10, `high` 12) or its width and its scope (`none` when absent), and its prefixes and width are valid. |
| Registry.CheckNext | packages/typescript/src/registry.ts:67-98 | The checks on the next definition pass exactly to a compatible definition, or give an error this definition deserves. |
| Registry.FindClash | packages/typescript/src/registry.ts:79-97 | The scan of the registered prefixes finds a clash whenever there is one, and says which kind. |
| Registry.AcceptanceIgnoresOrder | packages/typescript/src/registry.ts:60-127 | Whether a collection is accepted does not depend on its order. |
| Registry.DocumentedExactly | spec/namespaces.md:16-25 | For all collections: the code accepts it and all its sequential scopes are absent, `none` or `calendar-year`, if and only if no documented reason for rejection applies and its reference prefixes are in upper case. |
| Registry.ScopeGap | packages/typescript/src/registry.ts:180-198 | With upper-case reference prefixes the code and the documented rules agree on a collection exactly when its acceptance implies supported scopes; with supported scopes they always agree. |
| Registry.WeeklyAccepted | packages/typescript/src/registry.ts:193-198 | A collection with scope `weekly` is accepted although the documented rules reject it. |
| Registry.LowerRefused | packages/typescript/src/registry.ts:153-158 | A collection with a lower-case reference prefix is refused although no documented rule rejects it. |
| Registry.OnePrefix | packages/typescript/src/registry.ts:87-97 | In a registry at most one definition's reference prefix starts a given text. |
| Hyphenation.ValidateHyphenation | packages/typescript/src/reference.ts:302-325 | The method accepts exactly bodies without hyphens and bodies whose groups are four, four, …, the rest, one. |
| Hyphenation.HyphenateSound | packages/typescript/src/reference.ts:302-350 | Canonical hyphens come off again and have the expected group lengths. |
| Hyphenation.HyphenateComplete | packages/typescript/src/reference.ts:302-350 | A body with the expected group lengths is the canonically hyphenated form of its symbols. |
| References.NormalizePayload | packages/typescript/src/reference.ts:429-447 | The loop maps O to 0 and I, L to 1 everywhere, keeps all else, and refuses any symbol outside the data alphabet. |
| References.FormatReference | packages/typescript/src/reference.ts:404-414 | The grouping loop prints the canonical form: prefix, groups of four, check symbol. |
| References.SequentialTemplate | packages/typescript/src/reference.ts:416-427 | The string template of sequential references is the canonical form as well, with and without scope. |
| References.DefinitionBounds | packages/typescript/src/registry.ts:146-205 | No canonical reference of a registered definition exceeds 34 characters. |
| References.ParseWritten | packages/typescript/src/reference.ts:163-293 | Every one of the three hyphen shapes of an accepted body, in any letter case, parses to its canonical reading, and has at most 34 characters. |
| References.AcceptedIsWritten | packages/typescript/src/reference.ts:163-293 | Conversely, whatever parses is such a written form of an accepted body of a registered definition. |
| References.LocateJoined | packages/typescript/src/reference.ts:463-470 | A hyphenless reference is located at its own definition, wherever that is registered. |
| References.LocateHyphenated | packages/typescript/src/reference.ts:456-462 | A hyphenated one is located by what stands before the first hyphen. |
| Formatting.AcceptedSet | packages/typescript/src/reference.ts:163-293 | Parsing gives a result if and only if the text is, up to letter case, one of the three shapes of an accepted body (O, I and L aliases in random payloads only) and the result is its canonical reading. |
| Formatting.CanonicalParses | packages/typescript/src/reference.ts:163-293 | The canonical text of a payload parses to exactly that payload, scope, sequence and check symbol. |
| Formatting.ParseIdempotent | packages/typescript/src/reference.ts:295-300 | The canonical form of an accepted reference parses to the same result. |
| Formatting.ParseIgnoresOrder | packages/typescript/src/reference.ts:449-476 | Registries with the same definitions in different orders parse every text alike. |
| Formatting.CreateReferenceCandidate | packages/typescript/src/reference.ts:79-108 | The byte loop returns the candidate of the low five bits of each byte, or the error of the specification. |
| Formatting.CandidateRoundTrip | packages/typescript/src/reference.ts:79-108 | A candidate is made exactly for a random namespace and the right number of bytes, and parses back to its namespace and symbols. |
| Formatting.FormatUnfold | packages/typescript/src/reference.ts:110-161 | Sequential formatting succeeds exactly for numbers that fit the width with a suitable scope. |
| Formatting.SequentialRoundTrip | packages/typescript/src/reference.ts:110-161 | A formatted number parses back to its namespace, scope and number. |
| DecimalText.PadFits | packages/typescript/src/reference.ts:124-134 | The decimal text is no longer than the width exactly when the number is below that power of ten, and padding gives its fixed-width digits. |
| StorageText.PartsOfSequential | packages/typescript/src/sql-storage.ts:35-47 | The storage-side pattern inverts the formatter: it returns the prefix, the scope and the number. |
| StorageText.PartsOfRandom | packages/typescript/src/sql-storage.ts:35-47 | A canonical random reference matches the pattern if and only if its payload has eight symbols, all digits; then scope and number are its two halves. |
| StorageText.PartsExactly | packages/typescript/src/sql-storage.ts:35-47 | For any text: the pattern matches exactly two to eight capitals, four digits or none, four to eighteen digits and a check symbol with hyphens between, and takes them apart so. |
| StorageText.BytesRoundTrip | packages/typescript/src/sql-storage.ts:10-33 | A MID stored as sixteen bytes loads as the same MID. |
| StorageText.BytesInjective | packages/typescript/src/sql-storage.ts:10-20 | Two MIDs have the same bytes exactly when they are equal. |
| RustNormalize.GroupedCanonical | packages/rust/src/lib.rs:171-178 | Chunking a payload by four and joining with hyphens prints the canonical form. |
| RustNormalize.RustBodyAccepts | packages/rust/src/lib.rs:259-296 | The Rust treatment of the part behind the prefix returns a text exactly when the body is accepted, and then the canonical one. |
| RustNormalize.RustAcceptsStrict | packages/rust/src/lib.rs:230-296 | Every reference the TypeScript parser accepts, the Rust normalizer accepts with the same canonical output. |
| RustNormalize.RustAcceptsCompact | packages/rust/src/lib.rs:236-296 | Apart from PIDs and 36-character texts, the Rust normalizer accepts a text exactly when the TypeScript parser accepts it without its hyphens, with the same output. |
| RustNormalize.RustPublic | packages/rust/src/lib.rs:231-235 | A text with an underscore is normalized exactly when it is a PID whose namespace is registered, and to itself. |
| RustNormalize.RustMachine | packages/rust/src/lib.rs:236-238 | A text of 36 characters without underscore is normalized exactly when its lower-case form is a MID, and to that. |
| RustNormalize.RustFormatOverflow | packages/rust/src/lib.rs:206-218 | The Rust formatter reports an overflow exactly for texts longer than the width and texts with a character that is no digit. |
| RustNormalize.RustPads | packages/rust/src/lib.rs:219-221 | Leading zeros up to the width make no difference to what the Rust formatter returns. |
| RustNormalize.RustFormatsNumbers | packages/rust/src/lib.rs:206-228 | On the digits of any number, in a scope that suits the namespace, the Rust formatter returns what the TypeScript formatter returns, the refusal of numbers beyond the width included. |
| Unified.NormalizeIdempotent | packages/typescript/src/service.ts:277-287 | The normal form of any accepted text is classified as the same kind and parses to the very same result. |
| Unified.KindsDisjoint | packages/typescript/src/service.ts:325-340 | Canonical MIDs, PIDs of registered namespaces and canonical references are pairwise different, are told apart by the classifier, and are their own normal forms. |
| Unified.PublicAccepted | packages/typescript/src/service.ts:351-361 | A text with an underscore is accepted exactly when it is a PID whose namespace is registered; a PID of any other namespace is refused as of an unknown one. |
| Unified.MachineAccepted | packages/typescript/src/service.ts:347-350 | A text is read as a MID exactly when its lower-case form is one, capitals included, and that is the value. |
| Unified.ClassifierGap | packages/typescript/src/service.ts:336-339 | Of the references the parser accepts, the unified parser accepts exactly those that start with at most eight letters. |
| Unified.HyphenlessRefused | packages/typescript/src/service.ts:336-339 | Every random namespace has an acceptable hyphenless reference that the classifier refuses. |
| Refusals.MidRefused | packages/rust/src/lib.rs:40-60 | Exactly which texts are refused as MIDs for their shape or variant, and which for their version. |
| Refusals.PidRefused | packages/rust/src/lib.rs:121-140 | Exactly which texts are refused as PIDs for their prefix, and which for anything else. |
| Refusals.BuildRefused | packages/rust/src/lib.rs:111-119 | Exactly when a PID is not built, and with which error: for an invalid prefix, and otherwise for a text that is no MID. |
| Refusals.ReferenceRefused | packages/typescript/src/reference.ts:163-293 | Exactly which error every refused text gets: its characters or length, no registered prefix in front, the number of symbols, the hyphens, a foreign symbol, or the check symbol. |
| Refusals.RegisterRefused | packages/typescript/src/registry.ts:137-205 | Exactly which error a definition by itself is refused with: public prefix, reference prefix, strategy or profile, width. |
| Refusals.CandidateRefused | packages/typescript/src/reference.ts:79-108 | No candidate is made exactly in an unknown namespace, in one that is not random, or of another number of bytes, each with its own error. |
| Refusals.FormatRefused | packages/typescript/src/reference.ts:110-161 | No number is written exactly in an unknown namespace, in one that is not sequential, beyond the width, or with a negative number or the wrong kind of scope, each with its own error. |
| Refusals.KindRefused | packages/typescript/src/service.ts:325-340 | A text is of no kind exactly when it has no underscore, is no hexadecimal text in the groups of a MID, and does not begin with two to eight letters and then a hyphen or digit. |
| Refusals.AllocationRefused | packages/typescript/src/sqlite.ts:61-168 | Exactly which error an allocation is refused with, in terms of the request and of the rows of its key. |
| Refusals.ReservationRefused | integrations/sqlite/migrations/001_identifold.up.sql:3-9 | A reservation answers whether its reference was free, unless the schema refuses the row. |
| Tables.NoCounterRow | packages/typescript/src/sqlite.ts:99-127 | After the insert there is no counter row exactly when the key is new and another namespace holds its prefix in this scope. |
| Tables.AllocationSucceeds | packages/typescript/src/sqlite.ts:61-168 | An undisturbed allocation succeeds exactly for a valid width and MID and either a replay with the same policy, or a valid policy with room under a counter of its own. |
| Tables.AllocationKeeps | packages/typescript/src/sqlite.ts:75-168 | It keeps the invariant and changes nothing, or advances one counter by one and binds that number to the MID. |
| Tables.AllocationFrame | packages/typescript/src/sqlite.ts:147-166 | It leaves the counters and bindings of all other keys alone. |
| Tables.BindingAlwaysFits | packages/typescript/src/sqlite.ts:152-166 | The inserted row never violates one of the three keys of the binding table. |
| Tables.BindingFitsExactly | integrations/sqlite/migrations/001_identifold.up.sql:28-44 | A binding goes in exactly when none of the three keys of its table is held and its counter row exists. |
| Tables.ReplayForever | packages/typescript/src/sqlite.ts:76-98 | Once a number is bound, every later allocation for its key and MID returns it, or is refused for another prefix or width, and changes nothing. |
| Tables.Conservation | docs/database-integrations-design.md:173-181 | Between two states of one history, a counter grew by exactly the number of its new bindings. |
| Tables.Bijection | docs/database-integrations-design.md:173-181 | In tables grown from empty ones the bindings of a key are a bijection between MIDs and exactly 1 to the counter. |
| Tables.ReservationKeeps | packages/typescript/src/sqlite.ts:34-51 | A reservation answers true exactly when it inserted its row, under a reference that had none, and touches nothing else. |
| SqliteAllocator.Connection.Allocate | packages/typescript/src/sqlite.ts:61-177 | Under every set of failing statements, ROLLBACK and a COMMIT that took effect but reported an error included: nothing committed changed, or the whole allocation did; it succeeds exactly when the atomic step would and no executed statement fails. With a transaction left open it fails at BEGIN and discards that transaction, unless its ROLLBACK fails too. |
| SqliteAllocator.Connection.Transaction | packages/typescript/src/sqlite.ts:74-168 | The statements between BEGIN and COMMIT do together what the atomic step does; uncommitted tables are consistent and without loss wherever they stop. |
| SqliteAllocator.Connection.Reserve | packages/typescript/src/sqlite.ts:40-53 | The reservation statement does what the atomic reservation does to the tables the connection reads, or fails with or without its effect; inside a transaction left open nothing is committed. |
| SqliteAllocator.Connection.Resolve | packages/typescript/src/sqlite.ts:181-214 | The two queries return what the lookup function says of the tables the connection reads, uncommitted ones included. |
| SqliteAllocator.RowsFit | packages/typescript/src/sqlite.ts:146-166 | The counter update and the binding insert make up the atomic step, and the insert is never refused. |
| SqliteProtocol.EveryStepAtomic | packages/typescript/src/sqlite.ts:74-168 | In any interleaving of any number of connections, rollbacks that fail and reservations inside transactions left open included, the committed tables change only by one whole allocation or one reservation. |
| SqliteProtocol.RunInvariant | packages/typescript/src/sqlite.ts:74-176 | Over every run from any consistent tables, calls behind a failed ROLLBACK included: the invariant holds, nothing committed is lost, counters grow by exactly the numbers newly bound. |
| SqliteProtocol.EveryRunBijective | packages/typescript/src/sqlite.ts:75-168 | From empty tables, after any interleaving, the bindings of each namespace and scope are a bijection onto 1 to the counter, which fits the width, and carry its prefix and width. |
| SqliteProtocol.NoKeyViolation | packages/typescript/src/sqlite.ts:152-166 | In every reachable state a call about to insert its binding violates no key. |
| SqliteProtocol.WrittenStage | packages/typescript/src/sqlite.ts:146-166 | At that point the owner's uncommitted tables become exactly one allocation applied to the committed ones. |
| SqliteProtocol.LoneCall | packages/typescript/src/sqlite.ts:61-177 | An undisturbed call ends with exactly the result and the tables of the atomic step, in every case, and frees the write lock. |
| SqliteProtocol.ReturnsAgree | packages/typescript/src/sqlite.ts:76-98 | Two returned calls for one key have the same number exactly when they asked for the same MID. |
| SqliteProtocol.ReturnedForever | packages/typescript/src/sqlite.ts:76-98 | After a call returned a number, every later allocation with its key and MID returns it, or is refused for another policy, and changes nothing. |
| SqliteProtocol.LostCommitReplays | packages/typescript/src/sqlite.ts:168-176 | A COMMIT that took effect but reported an error stored the whole allocation: the call fails, and in every later state the same request gets the number. |
| SqliteProtocol.RunningUndisturbed | packages/typescript/src/sqlite.ts:61-177 | Whatever other connections do and whatever is invoked or reserved, a running call goes on as it was. |
| SqliteProtocol.ReservationDurableExactly | packages/typescript/src/sqlite.ts:34-53 | A reservation that was answered with true stays readable in every continuation, on every connection and on its own, if and only if no transaction was open on its connection. |
| SqliteProtocol.LeftNeverCommitted | packages/typescript/src/sqlite.ts:169-176 | A reservation inside a transaction left open reaches the committed tables in no continuation, unless its reference is reserved anew. |
| SqliteProtocol.LeftDiscarded | packages/typescript/src/sqlite.ts:74-176 | Behind a failed ROLLBACK the next allocation on the connection fails at BEGIN; its ROLLBACK discards what was left and frees the write lock. |
| SqliteProtocol.LeftOpenExactly | packages/typescript/src/sqlite.ts:169-174 | Over every run a transaction is open on an idle connection if and only if the last ROLLBACK that met an open transaction there failed. |
| SqliteProtocol.VoidedReservation | packages/typescript/src/sqlite.ts:34-53 | From any tables: after a failed allocation with a failing ROLLBACK a reservation is answered with true, the next allocation discards it, and the reference goes to another row. |
| SqliteProtocol.LeftReadable | packages/typescript/src/sqlite.ts:181-214 | When COMMIT and ROLLBACK fail, the connection reads the whole uncommitted allocation while all others read the tables without it. |
| MySqlRows.UpsertOk | packages/swift/Sources/IdentifoldMySQL/MySQLStorageAdapter.swift:117-129 | The upsert locks the key's own row, moves an unbound row of the same prefix and scope, or inserts a fresh one, and the row it holds is as committed. |
| MySqlRows.InsertFitsExactly | packages/swift/Sources/IdentifoldMySQL/MySQLStorageAdapter.swift:161-176 | The insert of a binding is refused exactly when the MID was bound to this key after the replay read. |
| MySqlRows.HeldStable | packages/swift/Sources/IdentifoldMySQL/MySQLStorageAdapter.swift:131-160 | A lock holder's view of its counter row survives the counter row of every other lock holder. |
| MySqlRows.CommitGrows | packages/swift/Sources/IdentifoldMySQL/MySQLStorageAdapter.swift:151-178 | A commit binds the next number of its prefix and scope, keeps all keys, and changes nothing else there. |
| MySqlRows.FlushGrows | packages/swift/Sources/IdentifoldMySQL/MySQLStorageAdapter.swift:94-178 | Committing the rows of a transaction at any point keeps all keys and rows; a prefix and scope conserve their numbers unless the counter was written and the binding was not. |
| MySqlRows.NumbersSplit | packages/swift/Sources/IdentifoldMySQL/MySQLStorageAdapter.swift:151-176 | A number passed over once is never bound: numbers are conserved over two stretches of a history exactly when they are over each. |
| MySqlProtocol.TablesAfter | packages/swift/Sources/IdentifoldMySQL/MySQLStorageAdapter.swift:94-179 | The committed tables change only by a reservation, by a call that commits, or by the rows that a failed ROLLBACK left to the next START TRANSACTION. |
| MySqlProtocol.RunInvariant | packages/swift/Sources/IdentifoldMySQL/MySQLStorageAdapter.swift:79-179 | Over every interleaving of connections at statement granularity, with faults, lost answers, and rollbacks that work or fail anywhere: numbers and MIDs within a key stay distinct, no row is lost, and new numbers lie between the old and the new counter. |
| MySqlProtocol.FiveTransactions | packages/swift/Sources/IdentifoldMySQL/MySQLStorageAdapter.swift:79-92 | No call ever opens more than five transactions, a START TRANSACTION that took effect but reported an error counted. |
| MySqlProtocol.ReturnsAgree | packages/swift/Sources/IdentifoldMySQL/MySQLStorageAdapter.swift:99-115 | In all runs a returned number stays bound to its MID for ever, and returns for one key agree exactly when the MIDs do. |
| MySqlProtocol.BoundReplays | packages/swift/Sources/IdentifoldMySQL/MySQLStorageAdapter.swift:99-115 | A bound number, also one whose COMMIT reported an error, is what the next transaction for its key and MID finds; another policy is refused. |
| MySqlConservation.StepAtomicExactly | packages/swift/Sources/IdentifoldMySQL/MySQLStorageAdapter.swift:79-97 | A step changes nothing, makes one reservation or one whole allocation, if and only if it does not commit a written, inserted or moved counter row without its binding. |
| MySqlConservation.RunAtomicExactly | packages/swift/Sources/IdentifoldMySQL/MySQLStorageAdapter.swift:79-97 | Every step of a run is atomic if and only if no START TRANSACTION of the run commits such a row. |
| MySqlConservation.RunConservesExactly | packages/swift/Sources/IdentifoldMySQL/MySQLStorageAdapter.swift:79-179 | Over any run from any consistent tables, the numbers of a prefix and scope are conserved if and only if no START TRANSACTION commits one of its counters without the binding. |
| MySqlConservation.RunConserves | packages/swift/Sources/IdentifoldMySQL/MySQLStorageAdapter.swift:151-176 | The same in numbers: a counter grows by at least the number of bindings added, and by exactly that many if and only if none of its numbers is skipped. |
| MySqlConservation.RunKeepsNamespaces | packages/swift/Sources/IdentifoldMySQL/MySQLStorageAdapter.swift:117-129 | Over any run conservation per namespace and scope holds if and only if every counter stayed under its namespace and no number was skipped. |
| MySqlConservation.AnchoredRun | packages/swift/Sources/IdentifoldMySQL/MySQLStorageAdapter.swift:94-179 | From tables in which every counter has a binding no run moves a counter, and conservation per namespace holds if and only if no number is skipped. |
| MySqlConservation.EveryRunBijective | packages/swift/Sources/IdentifoldMySQL/MySQLStorageAdapter.swift:94-179 | From empty tables the bindings of every namespace and scope are a bijection between MIDs and exactly 1 to the counter if and only if no number is skipped; no number has two MIDs and no MID two numbers in any case. |
| MySqlRuns.LoneCall | packages/swift/Sources/IdentifoldMySQL/MySQLStorageAdapter.swift:94-179 | An undisturbed call gets the next number and commits it. |
| MySqlCalls.LoneCallExactly | packages/swift/Sources/IdentifoldMySQL/MySQLStorageAdapter.swift:63-179 | From any tables an undisturbed call of the interleaved protocol ends at its first attempt with exactly the result and tables of the adapter's undisturbed transaction: new numbers, replays and every refusal. |
| MySqlCalls.LateInsertEnds | packages/swift/Sources/IdentifoldMySQL/MySQLStorageAdapter.swift:161-178 | A call whose MID was bound by another one after its replay read is refused at the insert, without another attempt. |
| MySqlCalls.LostCommitReplayed | packages/swift/Sources/IdentifoldMySQL/MySQLStorageAdapter.swift:79-115 | A COMMIT that took effect but reported a transient error: the next attempt finds the number and returns it, whether the ROLLBACK between them works or not. |
| MySqlCalls.LostStartFlushes | packages/swift/Sources/IdentifoldMySQL/MySQLStorageAdapter.swift:94-97 | A START TRANSACTION that took effect but reported an error commits what an earlier call left open. |
| MySqlCalls.RunningUndisturbed | packages/swift/Sources/IdentifoldMySQL/MySQLStorageAdapter.swift:63-92 | Whatever other connections do and whatever is invoked, a running call goes on as it was. |
| MySqlCalls.InvokedExactly | packages/swift/Sources/IdentifoldMySQL/MySQLStorageAdapter.swift:63-81 | Where no call runs, a new one begins at its first attempt, or fails for its width, and keeps what an earlier one left open. |
| MySqlRuns.RetriesSucceed | packages/swift/Sources/IdentifoldMySQL/MySQLStorageAdapter.swift:79-92 | After up to four attempts that each fail transiently at any statement and roll back, an undisturbed attempt gets the next number and commits it. |
| MySqlRuns.RetriesExactly | packages/swift/Sources/IdentifoldMySQL/MySQLStorageAdapter.swift:80-90 | After fewer than five transient failures the call tries again, after the fifth it has failed; the tables are as before. |
| MySqlRuns.OtherErrorEnds | packages/swift/Sources/IdentifoldMySQL/MySQLStorageAdapter.swift:86-89 | Any other error ends the call in whatever attempt it comes. |
| MySqlRuns.NumberSkipped | packages/swift/Sources/IdentifoldMySQL/MySQLStorageAdapter.swift:82-97 | Counter written, a transient error at the binding, a failing ROLLBACK and another START TRANSACTION: the counter is committed without a binding, and in no continuation is the number ever bound. |
| MySqlRuns.EmptySkips | packages/swift/Sources/IdentifoldMySQL/MySQLStorageAdapter.swift:82-97 | Such a run starts from empty tables, for every MID and valid key, prefix and width. |
| MySqlRuns.CommitKeepsNamespaces | packages/swift/Sources/IdentifoldMySQL/MySQLStorageAdapter.swift:117-129 | A commit conserves the counters of every namespace exactly when the key had a row or no other namespace held the prefix in this scope. |
| MySqlRuns.SeededCounterTaken | packages/swift/Sources/IdentifoldMySQL/MySQLStorageAdapter.swift:122-122 | Where another namespace holds the prefix without bindings, one undisturbed call takes its counter row away. |
| MySqlRuns.SeededExample | packages/swift/Sources/IdentifoldMySQL/MySQLStorageAdapter.swift:122-122 | Concrete tables and a request of that kind. |
| MySqlRuns.NamespacesSafeExactly | packages/swift/Sources/IdentifoldMySQL/MySQLStorageAdapter.swift:117-129 | From given tables every run that skips no number conserves numbers per namespace, if and only if every counter of the tables has a binding. |
| MySqlRuns.WholeRunsSafeExactly | packages/swift/Sources/IdentifoldMySQL/MySQLStorageAdapter.swift:117-129 | From given tables every run whose steps are atomic conserves numbers per namespace, if and only if every counter without a binding is at its maximum. |
| MySqlAdapter.AloneKeeps | packages/swift/Sources/IdentifoldMySQL/MySQLStorageAdapter.swift:94-179 | An undisturbed transaction keeps the keys, changes nothing or adds one binding with its counter step, and binds what it returns. |
| MySqlAdapter.AloneAgain | packages/swift/Sources/IdentifoldMySQL/MySQLStorageAdapter.swift:99-115 | Repeating it after a success returns the same number and leaves the same tables. |
| MySqlAdapter.AttemptsKeep | packages/swift/Sources/IdentifoldMySQL/MySQLStorageAdapter.swift:79-92 | Under every pattern of faults and failing rollbacks, and whatever was open before: the keys hold, so there are never two bindings for the MID; no row is lost; a returned number is bound to the MID. |
| MySqlAdapter.AttemptsWholeExactly | packages/swift/Sources/IdentifoldMySQL/MySQLStorageAdapter.swift:79-92 | Over five attempts every committed state is the first one or that with exactly the whole allocation, if and only if no START TRANSACTION takes effect while an unfinished counter row is open; then success returns the allocation, and comes whenever an attempt is undisturbed and only transient errors precede it. |
| MySqlAdapter.WorkingRollbacks | packages/swift/Sources/IdentifoldMySQL/MySQLStorageAdapter.swift:82-88 | When every ROLLBACK works that is always so. |
| MySqlAdapter.TornExactly | packages/swift/Sources/IdentifoldMySQL/MySQLStorageAdapter.swift:79-92 | For every new allocation the faults and rollbacks alone decide: every committed state is whole if and only if no attempt fails transiently behind a counter write with every ROLLBACK failing up to the next START TRANSACTION that takes effect. |
| MySqlAdapter.SkippingIsTorn | packages/swift/Sources/IdentifoldMySQL/MySQLStorageAdapter.swift:82-97 | For every new allocation, a transient error at the binding insert with a failing ROLLBACK, followed by an undisturbed attempt, commits a state that is not whole. |
| MySqlAdapter.Adapter.LockCounter | packages/swift/Sources/IdentifoldMySQL/MySQLStorageAdapter.swift:117-129 | The upsert statement picks the row the specification says. |
| MySqlAdapter.Adapter.Statements | packages/swift/Sources/IdentifoldMySQL/MySQLStorageAdapter.swift:99-178 | The statements behind START TRANSACTION, with any one of them failing, end in the outcome, the tables and the uncommitted rows of the specification. |
| MySqlAdapter.Adapter.AllocateTransaction | packages/swift/Sources/IdentifoldMySQL/MySQLStorageAdapter.swift:94-179 | The same with START TRANSACTION, which commits what the connection has open; the history lists every state it committed. |
| MySqlAdapter.Adapter.AllocateSerially | packages/swift/Sources/IdentifoldMySQL/MySQLStorageAdapter.swift:79-92 | The retry loop, ROLLBACK errors ignored, computes the attempts of the specification in at most five transactions; its committed states are whole exactly when the attempts are not torn. |
| MySqlAdapter.Adapter.Allocate | packages/swift/Sources/IdentifoldMySQL/MySQLStorageAdapter.swift:63-77 | The same behind the gate, which is open again on every path, success and error alike; a width outside 4 to 18 touches neither gate nor tables. |
| Gate.TransactionGate.Acquire | packages/swift/Sources/IdentifoldMySQL/MySQLStorageAdapter.swift:196-204 | The caller enters exactly when the gate was open; otherwise it stands last in the queue. |
| Gate.TransactionGate.Release | packages/swift/Sources/IdentifoldMySQL/MySQLStorageAdapter.swift:206-212 | The first waiter is resumed with the gate still locked; without waiters the gate opens. |
| Gate.GateSafety | packages/swift/Sources/IdentifoldMySQL/MySQLStorageAdapter.swift:192-213 | In every run: at most one call inside, nobody waits at an open gate, grants are the arrivals in order, and every granted call but the one inside has released exactly once. |
| Gate.HandOff | packages/swift/Sources/IdentifoldMySQL/MySQLStorageAdapter.swift:206-212 | A release lets the first waiter in, with the gate locked throughout, or opens the gate when nobody waits; a call that arrives at an open gate is inside at once. |
| Gate.NoLostWakeup | packages/swift/Sources/IdentifoldMySQL/MySQLStorageAdapter.swift:206-212 | A call waits only while fewer releases happened than calls arrived before it. |
| Gate.TransactionsNeverOverlap | packages/swift/Sources/IdentifoldMySQL/MySQLStorageAdapter.swift:63-92 | Whenever a call is about to start a transaction no call is in one, and none is open on the connection if and only if every START TRANSACTION of the run so far was followed by a COMMIT or a ROLLBACK that worked. |
| Gate.ClosedRunsNeverOverlap | packages/swift/Sources/IdentifoldMySQL/MySQLStorageAdapter.swift:63-92 | In a run without failing ROLLBACK no transaction is started while another is open. |
| Gate.OpenExactly | packages/swift/Sources/IdentifoldMySQL/MySQLStorageAdapter.swift:82-97 | After any run a transaction is open on the connection if and only if some START TRANSACTION was not followed by a COMMIT or a working ROLLBACK. |
| Gate.LeftOpen | packages/swift/Sources/IdentifoldMySQL/MySQLStorageAdapter.swift:82-97 | A run in which a ROLLBACK fails and the second attempt finds the first transaction open. |
| Gate.AttemptsExactly | packages/swift/Sources/IdentifoldMySQL/MySQLStorageAdapter.swift:80-90 | With fewer than five transient failures behind it a call holds the gate for another attempt; the fifth ends it. |
| Gate.SucceedsExactly | packages/swift/Sources/IdentifoldMySQL/MySQLStorageAdapter.swift:63-92 | Over every run a call has succeeded if and only if its COMMIT has. |
| MySqlReservations.ReservationFate | packages/swift/Sources/IdentifoldMySQL/MySQLStorageAdapter.swift:15-92 | In every run of gated allocations and ungated reservations on one connection, a reservation answered with true is still read there if and only if no transaction was open or no ROLLBACK worked before the next commit, and committed if and only if no transaction was open or that commit has come. |
| MySqlReservations.RunKeeps | packages/swift/Sources/IdentifoldMySQL/MySQLStorageAdapter.swift:15-29 | In every such run a committed reservation is never lost or overwritten. |
| MySqlReservations.VoidedReservation | packages/swift/Sources/IdentifoldMySQL/MySQLStorageAdapter.swift:15-92 | A run in which every ROLLBACK works, one allocation is refused, and one reference is given to two rows. |
| MySqlReservations.AnswerExactly | integrations/mysql/migrations/001_identifold.up.sql:1-11 | A reservation inserts its row exactly when the reference is free and the schema takes the row. |
| MySqlReservations.ElsewhereStores | packages/swift/Sources/IdentifoldMySQL/MySQLStorageAdapter.swift:15-29 | A reservation on another connection is committed at once when its reference is free. |
| Service.ReserveReference | packages/typescript/src/service.ts:186-206 | Under any store faults, and on a connection with a transaction left open too, the attempt loop succeeds exactly when it reaches a free candidate whose insert succeeds, and then reserved it for the MID in the tables the connection reads; a failure leaves them as they were if and only if no insert lost its answer; running out of attempts means every candidate was taken; with a transaction left open nothing is committed. |
| Creates.AttemptOutcome | packages/typescript/src/service.ts:186-201 | What an attempt in any state leads to: a free reference is returned, or lost with its answer; a taken one leads to the next attempt, or ends the create at the last; anything else fails it, with the error of the candidate or as a conflict. |
| Creates.FirstFreeDraw | packages/typescript/src/service.ts:186-201 | From any state, a create whose first candidates are taken, fewer than attempts are allowed, and whose next one is free reserves and returns that one. |
| Creates.AllDrawsTaken | packages/typescript/src/service.ts:203-206 | A create all of whose candidates are taken gives up after the last attempt and has changed nothing. |
| Creates.ExhaustedExactly | packages/typescript/src/service.ts:186-206 | Over every run, whatever other creates and allocations do in it, a create gives up exactly when as many of its candidates were taken as it may try. |
| Creates.OpeningExactly | packages/typescript/src/service.ts:125-185 | A create fails at once in an unknown namespace or for a MID that is none, and otherwise goes the way of its namespace. |
| Creates.AskExactly | packages/typescript/src/service.ts:145-165 | A sequential create asks for a number under its own namespace, prefix and width, in the four digits of the year where the namespace has a yearly scope; without such a year it fails and asks for nothing. |
| Creates.CollectExactly | packages/typescript/src/service.ts:154-183 | A sequential create returns the reference of exactly the number its allocation returned, in the scope it asked in; when the allocation fails the create fails with its error, and a reference was lost exactly if the number was committed all the same. |
| Service.AllocatedFormats | packages/typescript/src/service.ts:167-183 | Every allocated number has a reference: formatting after the allocation cannot fail. |
| Service.RunInvariant | packages/typescript/src/service.ts:125-207 | Over any run of creates in any namespaces, their allocations interleaved statement by statement over any number of connections, with faults, lost answers and failing rollbacks: committed rows and stored references correspond exactly, and issued references stay as they are. |
| Service.RecordedLookup | packages/typescript/src/sqlite.ts:181-214 | Every stored reference is canonical in its namespace, and on every connection the lookup finds its MID, random and sequential alike. |
| Service.IssuedForever | packages/typescript/src/resolver.ts:31-46 | A stored REF resolves, in every later state, on every connection and from every accepted spelling, to exactly its MID and namespace. |
| Service.CreatedDurableExactly | packages/typescript/src/service.ts:186-201 | A random REF that `create` returned resolves to its MID in all later states if no transaction was open on its connection; if one was, the committed tables resolve it to nothing in all later states until it is drawn again. |
| Service.WorkingRollbacks | packages/typescript/src/sqlite.ts:169-174 | While every ROLLBACK works, every REF that `create` returned is stored. |
| Service.VoidedReference | packages/typescript/src/service.ts:186-201 | In every registry with a random and a sequential namespace there is a run from empty tables in which one REF is returned for two MIDs; the first is void and the second resolves. |
| Service.ResolveExact | packages/typescript/src/resolver.ts:31-46 | On a connection without an open transaction an acceptable text resolves to a mapping if and only if a create stored its canonical form (with its answer lost or not yet collected included), and to null otherwise; all-digit random references that reach the sequential query included. |
| Service.ResolveRefused | packages/typescript/src/resolver.ts:31-46 | Resolving fails exactly for the texts that are no references, and with their error. |
| Service.DistinctReferences | packages/typescript/src/service.ts:145-207 | Two calls that stored the same reference have the same MID and namespace. |
| Service.UnissuedStoresNothing | packages/typescript/src/service.ts:203-206 | A create that issued nothing left no mapping: any committed random row with its MID was written by another call with that MID. |
| Service.IdentityAgrees | packages/typescript/src/service.ts:139-142 | The three identifiers of an identity whose REF is stored lead to each other in every later state, on every connection. |
| Service.SequentialReading | packages/typescript/src/reference.ts:230-293 | Every accepted reference of a sequential namespace is the text of a number and scope, as the formatter prints it. |
| Service.FirstRandomCreate | packages/typescript/src/service.ts:186-201 | On empty tables the first draw is reserved and returned, and is the only row. |
| Service.FirstSequentialCreate | packages/typescript/src/service.ts:154-183 | On empty tables the first sequential create, its allocation executed statement by statement, gets number 1 of its scope, with the four-digit year where the namespace has one. |

## Left out

- Database drivers, SQL text, connection pools and sleep times: replaced by table steps, lock ownership and failing statements.
- Gap locks and blocking reads of MySQL: the replay read sees the committed rows and locks nothing, which allows more interleavings than the server does.
- MySqlAdapter.Adapter.Allocate: entered at an open gate, because a method cannot be suspended; calls that wait are covered by the state machine of the gate.
- MySqlAdapter.Adapter.AllocateSerially: other connections do not act between its attempts; the state machine of MySqlProtocol has them act between any two statements, and has later calls on the connection. Its equivalence is stated for a connection with nothing open; rows an earlier call left open are those of MySqlConservation.RunAtomicExactly.
- Service.ReserveReference: other calls do not act between its attempts; the runs of Service have them act there.
- Statements of one SQLite connection between those of its running allocation: the driver interface is synchronous, so there are none; other connections act between any two statements.
- Service.ResolveExact: stated for connections without an open transaction; on one with such a transaction every stored reference still resolves (Service.IssuedForever), and uncommitted rows may answer as well (SqliteProtocol.LeftReadable).
- MySqlRuns.NamespacesSafeExactly: the namespace column holds 63 characters and the model's namespaces are unbounded, so the namespace that the converse makes up may be longer.
- MySqlRuns.WholeRunsSafeExactly: the same for the namespace of its converse.
- MySqlReservations.ReservationFate: the transactions of the gate, without counters and bindings; in MySqlProtocol reservations come from other connections.
- The resolver's check of the returned namespace: modelled, but with the lookups here it never fires.
- PostgreSQL, the stored-procedure MySQL adapters, MongoDB and the other stores: not part of this model.
- The Rust, Go and Python SQLite adapters: the same transaction as the TypeScript one, so they would add only repeats.
- The Java, Kotlin, C#, Ruby and Go codecs and parsers: the same algorithms again.
- UUIDv7 generation, clocks and random bytes: MIDs, years and bytes are arbitrary inputs.
- The TypeID library behind the TypeScript PID functions: foreign code; the Rust codec stands in its place.
- The limits on the number of attempts (1 to 100, 8 by default): the number is a parameter.
- Error codes across ports, the Rust normalizer's among them, Unicode case and digits: texts are ASCII, and agreement between ports covers acceptance and value.
- Profile names found on the object prototype (`profile in PROFILE_LENGTHS`): the model knows the three profiles only.
- `inspect`, `validate`, legacy inspection, JSON and registry exchange: derived from parsing, no property of their own.
- CLI, validation middleware, ORM glue, observability, examples and build files: plumbing.
