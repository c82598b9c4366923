# manipulador-xml-web: the XML core, in Dafny

This project models the core of manipulador-xml-web. The tool takes a batch of Brazilian
fiscal documents and rewrites them for another issuer or another date. The batch holds NF-e
invoices, NF-e cancellation events, CT-e transport documents and number-voiding requests
(inutilização). The model covers the four files of `src/lib/xml`:

- **utils.ts.** The access-key check digit (`calcularDvChave`, modulus 11 with weights 2..9
  from the right). The tag-path lookups over the parsed document (`findElementDeep`,
  `findAllElementsDeep`). The text and attribute getters and setters.
- **info-extractor.ts.** `getXmlInfo`: which kind a document is, and the fields read from an NF-e.
- **renamer.ts.** The new file name of an NF-e, from its CFOP list, nature of operation and
  referenced key. The batch renaming, whose cancellation events are named after the cancelled
  invoice's number.
- **editor.ts.** The map builder (`preparaMapeamentos`), which rebuilds every NF-e key with
  the new CNPJ and year-month. The four editors: NF-e, cancellation, voiding and CT-e. The
  batch driver.

The parsed document is a tree of ordered entries (`Tree`). An entry's value is a text, one
child object, or an array of child objects. A lookup returns `Nil`, a string or an object,
like the untyped value the source returns.

The source mutates the document in place, through references it found earlier. The model
gives every found node a location (`Doc`). An editor run (`Editing.Run`) is the original
document, the ordered trail of text and `Id` writes, and the change log. Every lookup is made
on the document as it stands at that moment, as in the source. The trail lemmas (`Trail`)
show two things:

- a write never moves a lookup along a tag path;
- a node holds the last text written to it.

External inputs are parameters:

- the four CFOP lists of the constants module (`Config.CfopTables`);
- the configuration profile (`Config.Profile`);
- the time of day and the runtime's year (`Config.Runtime`);
- for renaming, the directory listing and whether each rename succeeded.

Amounts are integer centavos (`Amounts`).

Where the code departs from the key rule, or from treating each document on its own, the
model follows the code:

- The check digit is "0" when the weighted sum leaves remainder 0, 1 or 10 modulo 11
  (`CheckDigit.CheckDigitValue`). The modulus-11 rule of the access key asks for 0 at
  remainder 0 or 1 and for 11 minus the remainder otherwise, so 1 at remainder 10. The code's
  digit therefore passes that rule exactly when the remainder is not 10
  (`CheckDigit.AgreesWithStandard`), and a body of 42 zeros and a 5 is a case where it fails
  (`CheckDigit.RemainderTen`).
- The sale file is any NF-e whose path contains `Venda.xml` anywhere.
- A CT-e whose date override has no year part fails on its own. The NF-e map builder fails the
  whole batch in that case, and likewise when a CNPJ override has more than 14 digits, since
  the check digit refuses a key body longer than 43 digits (`Mapping.NewKeyOverlongCnpj`); no
  file of the batch gets an outcome then (`Batch.EditFilesInBatch`).
- The rebuilt CT-e `Id` keeps the old check digit and the old key's characters from position 7
  on, so the old year-month stays behind the new one. An `Id` of "CTe" and 44 digits, 47
  characters, grows to 49 (`Cte.CteIdGrows`).
- The cancellation editor's second pass rewrites every `chNFe` whose invoice number matches
  the first mapped key with that number. This includes keys the first pass had already mapped
  (`Cancel.SettledByNumber`).

Lookups (`findElementDeep`, `findAllElementsDeep`) start from the node's own keys and go
down one level per path segment. `getXmlInfo` looks its markers up with one-segment paths, so
a document is recognised only when `infNFe`, `infCte`, `infInut` or `infEvento` is one of its
top-level keys (`Info.MarkerAtRoot`). The model takes the parsed document in that keyed shape,
with the editors' elements where their paths name them. The parser of utils.ts is configured
with `preserveOrder` on, and then hands back an array of one-key objects with the attributes
under ":@". The own keys of such an array are its indices, so none of the four markers is found
and no file is recognised (`Info.ArrayRootUnrecognised`). In the keyed shape too, an NF-e
stored as `nfeProc/NFe/infNFe` is not recognised (`Info.NfeProcUnrecognised`).

## Model

| member | source | states |
|---|---|---|
| CheckDigit.CheckDigitOf | src/lib/xml/utils.ts:21-37 | fails exactly when the body is not 43 characters long; a body with a non-digit gives "NaN"; a body of digits gives one digit |
| CheckDigit.CheckDigitValue | src/lib/xml/utils.ts:25-36 | for a 43-digit body the digit is "0" exactly when the modulus-11 remainder of the 2..9-weighted sum is 0, 1 or 10, and otherwise 11 minus the remainder |
| CheckDigit.AgreesWithStandard | src/lib/xml/utils.ts:21-37 | for every 43-digit body the computed digit exists, and the body followed by it passes the modulus-11 key rule (0 at remainder 0 or 1, else 11 minus the remainder) exactly when the remainder is not 10 |
| CheckDigit.RemainderTen | src/lib/xml/utils.ts:34-36 | a body whose remainder is 10 gets "0", which the key rule rejects, where the rule asks for "1" |
| CheckDigit.CalcularDvChave | src/lib/xml/utils.ts:21-37 | the right-to-left loop, with the weight running 2..9 and back to 2, gives exactly the modulus-11 digit of the definition |
| JsString.JoinSplit | src/lib/xml/utils.ts:45 | splitting on a separator and joining the parts back with it gives the original string |
| JsString.StripLeadingZeros | src/lib/xml/renamer.ts:17 | the result has no leading zero, and the input is the result behind a run of zeros |
| JsString.PadStart | src/lib/xml/editor.ts:94 | a string at least `n` long is kept; a shorter one is filled on the left up to `n` |
| JsString.DigitsOnlyKeepsDigits | src/lib/xml/editor.ts:82 | removing non-digits from a string of digits leaves it unchanged |
| Tree.FirstMatch | src/lib/xml/utils.ts:55 | the first entry whose key is the tag or ends in ":" plus the tag, and no earlier entry matches |
| Tree.SetText | src/lib/xml/utils.ts:111-118 | on an object the text becomes `s` and every other key is kept; anything else is left as it was |
| Tree.SetAttr | src/lib/xml/utils.ts:127-135 | on an object the attribute becomes `v` and every other key is kept; anything else is left as it was |
| Tree.AttrLoose | src/lib/xml/editor.ts:20-27 | a string attribute is read as it is; a missing attribute or a non-object node gives undefined, and a present non-string value gives some string |
| Tree.WriteAtTarget | src/lib/xml/utils.ts:111-118 | writing through a location changes exactly the entry at that location's node |
| Tree.WriteAtElsewhere | src/lib/xml/utils.ts:111-118 | writing through a location leaves every node on a diverging location as it was |
| Search.FindAllElementsDeep | src/lib/xml/utils.ts:72-98 | the level-by-level walk over a "/"-separated path returns exactly the depth-first matches of the reference lookup, in order |
| Search.FindElementDeep | src/lib/xml/utils.ts:44-70 | the result is the first match of the reference lookup, and a found node is one of all the matches |
| Search.NextLevel | src/lib/xml/utils.ts:76-93 | one level of the walk collects the children of the first matching key of every object, arrays flattened in order |
| Search.FindAllFromEachCons | src/lib/xml/utils.ts:76-96 | walking a path from a set of nodes is walking the rest of the path from the next level |
| Doc.FindAfterWrite | src/lib/xml/utils.ts:111-135 | writing a text or an `Id` never changes what a lookup along tag names finds |
| Trail.TextAfterAll | src/lib/xml/utils.ts:111-118 | after a sequence of writes a node's text is the last text written to it, or its original text when none was |
| Info.Unrecognised | src/lib/xml/info-extractor.ts:22-80 | no record is returned exactly when the document is no cancellation event and has no `infNFe`, `infCte` or `infInut`; a cancellation carries only the cancelled key |
| Info.CancellationFirst | src/lib/xml/info-extractor.ts:30-42 | a document is a cancellation exactly when it has an `infEvento` whose `tpEvento` is 110111, whatever else it holds |
| Info.KindPrecedence | src/lib/xml/info-extractor.ts:44-73 | outside cancellations, NF-e comes before CT-e and CT-e before voiding, each in both directions |
| Info.NfeKeyIsIdTail | src/lib/xml/info-extractor.ts:47 | an NF-e's key is its `Id` without the first three characters, and it is absent exactly when the `Id` is |
| Info.NfeCfopFromFirstItem | src/lib/xml/info-extractor.ts:54 | an NF-e's CFOP is the text of the first `det/prod/CFOP` of the invoice |
| Info.MarkerAtRoot | src/lib/xml/info-extractor.ts:25-28 | a document is recognised only when it is an object one of whose own top-level keys names `infNFe`, `infCte`, `infInut` or `infEvento` |
| Info.ArrayRootUnrecognised | src/lib/xml/info-extractor.ts:25-28 | a document whose own keys are all digit strings, as the indices of the array the order-preserving parser returns are, is never recognised |
| Info.NoMarkerUnrecognised | src/lib/xml/info-extractor.ts:25-28 | a document none of whose own top-level keys names a marker gets no record |
| Info.NfeProcUnrecognised | src/lib/xml/info-extractor.ts:25-28 | a document whose only top-level key is `nfeProc`, as an authorised NF-e with its protocol is, gets no record whatever `nfeProc` holds |
| Info.OtherKindsCarryNoFields | src/lib/xml/info-extractor.ts:63-73 | a CT-e or voiding record carries nothing but its kind, path and document |
| Renamer.RefNumber | src/lib/xml/renamer.ts:17 | the invoice number of a referenced key is characters 25..34 without leading zeros |
| Renamer.NewNfeName | src/lib/xml/renamer.ts:13-44 | no name exactly when no case applies; every name starts with the invoice number and " - " and ends in ".xml" |
| Renamer.DevolutionShadowsOtherLists | src/lib/xml/renamer.ts:16-27 | a devolution CFOP with a reference is decided by the devolution branch alone, whatever the other lists hold, and gets no name exactly when its nature and markers match no case |
| Renamer.MarketplaceMarkerWins | src/lib/xml/renamer.ts:20-22 | a devolution whose text has a marketplace marker is named as a return to the marketplace, before the plain-devolution marker is tried |
| Renamer.SaleIgnoresOtherFields | src/lib/xml/renamer.ts:27-28 | a sale CFOP outside the devolution list is named "Venda" whatever its nature, reference and text |
| Renamer.ReturnNeedsExactNature | src/lib/xml/renamer.ts:29-35 | a return with a reference is named exactly when its nature is one of the two return natures |
| Renamer.RemessaAlwaysNamed | src/lib/xml/renamer.ts:36-41 | a remessa CFOP is always named: after the referenced sale when there is a reference, plain "Remessa" otherwise |
| Renamer.UnlistedCfopKeepsName | src/lib/xml/renamer.ts:43 | a CFOP in none of the four lists gets no new name |
| Renamer.ExtractedFromListing | src/lib/xml/renamer.ts:60-74 | every extracted record comes from a listed `.xml` file that the extractor recognised |
| Renamer.NfeIndexLastWins | src/lib/xml/renamer.ts:66-69 | an invoice number maps to the last NF-e of the batch carrying it, in both directions |
| Renamer.RegisteredInIndex | src/lib/xml/renamer.ts:78 | the NF-e rename loop visits exactly the records the number index kept |
| Renamer.Events | src/lib/xml/renamer.ts:70-71 | the event list holds exactly the cancellation records |
| Renamer.KeyTableHolds | src/lib/xml/renamer.ts:95-97 | a key is in the key-to-number table exactly when an indexed NF-e has it, and then maps to the number of one of them |
| Renamer.KeyTableLast | src/lib/xml/renamer.ts:95-97 | when several visited NF-e share a key, the table holds the number of the last of them in visiting order |
| Renamer.CancellationNamedByBatchKey | src/lib/xml/renamer.ts:99-103 | a cancellation gets a new name exactly when its cancelled key belongs to an indexed NF-e, and the name is "CAN-" plus that invoice's number |
| Renamer.TryRenameIdempotent | src/lib/xml/renamer.ts:80-90 | attempting the same rename twice gives the same record as attempting it once |
| Renamer.RenameOutcome | src/lib/xml/renamer.ts:50-119 | each returned record differs from its extracted record at most in its path: indexed NF-e are renamed by their label, cancellations by the key table, all others kept |
| Dict.Set | src/lib/xml/editor.ts:98 | assigning a record key replaces its value in place or appends it, and every other key reads as before |
| Config.RuleFor | src/lib/xml/editor.ts:162-172 | the rule of a CFOP is a row naming it, and none exists exactly when no row names it or the CFOP is empty |
| Config.BuildCstTable | src/lib/xml/editor.ts:157-172 | the table answers every CFOP with its rule, a later row replacing an earlier one, and holds each key once |
| Config.TimestampOfDate | src/lib/xml/editor.ts:273-277 | a date written DD/MM/YYYY becomes the timestamp YYYY-MM-DD T clock -03:00 |
| Config.YearNeedsTwoSlashes | src/lib/xml/editor.ts:86-87 | a date has no year part, and its year-month fails, exactly when it holds fewer than two "/" |
| Config.YearMonthOfDate | src/lib/xml/editor.ts:86-87 | a date written DD/MM/YYYY puts YYMM into the key |
| Mapping.NewKeyLayout | src/lib/xml/editor.ts:82-96 | a rebuilt key keeps the state code and characters 20..43, carries the new year-month and the zero-padded CNPJ digits, and ends in the code's check digit of the rest, which the modulus-11 key rule accepts exactly when the remainder is not 10 |
| Mapping.NewKeyOverlongCnpj | src/lib/xml/editor.ts:90-96 | a CNPJ of more than 14 digits makes the body too long, so the check digit fails |
| Mapping.NewKeyWithoutYear | src/lib/xml/editor.ts:85-87 | a date override without a year part makes the rebuild fail |
| Mapping.NumberIndex | src/lib/xml/editor.ts:50-56 | the number-to-key index maps every invoice number to the key of the last NF-e carrying it |
| Mapping.NumberedIffPresent | src/lib/xml/editor.ts:52-56 | a number is indexed exactly when some NF-e has that non-empty number and a non-empty key |
| Mapping.Visit | src/lib/xml/editor.ts:64-105 | one iteration fails exactly when that document's rebuild throws, and otherwise extends the maps to the longer prefix |
| Mapping.PreparaMapeamentos | src/lib/xml/editor.ts:45-108 | fails exactly when some document's rebuild throws; otherwise every map agrees with its last-wins definition, and without a switch nothing is mapped |
| Mapping.MappedFromBatch | src/lib/xml/editor.ts:76-98 | every mapped key is an NF-e's own key and maps to that document's rebuilt key |
| Mapping.EveryKeyMapped | src/lib/xml/editor.ts:64-98 | when a switch is on and nothing throws, every NF-e with a key is mapped |
| Mapping.ReferenceResolved | src/lib/xml/editor.ts:68-74 | every reference entry comes from an NF-e whose referenced number resolves through the number index |
| Mapping.SaleKeyFromSaleFile | src/lib/xml/editor.ts:100-103 | the sale key is the rebuilt key of an NF-e whose path contains `Venda.xml` |
| Mapping.SaleKeyNeedsRebuild | src/lib/xml/editor.ts:76-104 | without the issuer or date switch there is no sale key |
| Editing.SetIfFound | src/lib/xml/editor.ts:148-152 | a found node gets the text and one log line; otherwise nothing happens |
| Editing.OverridesFrame | src/lib/xml/editor.ts:134-153 | an override loop writes each set column, other than the record's own keys, into the element it names when that element is found, in column order, with one log line each |
| Passes.PassResult | src/lib/xml/editor.ts:422-429 | after a pass over tags a visited node holds its rewrite when the rewrite applies, and its old text otherwise |
| Nfe.KeyOf | src/lib/xml/editor.ts:124-125 | the original key is the `Id` without its first three characters, and exists exactly when the `Id` is longer than three |
| Nfe.EditNFe | src/lib/xml/editor.ts:120-125 | a document without `infNFe` or without a key is returned untouched with an empty log |
| Nfe.CstColumn | src/lib/xml/editor.ts:214-223 | a non-empty CST value is written to the `CST` under its tax element and logged when both are found; otherwise nothing happens |
| Nfe.ZeroIpiWrites | src/lib/xml/editor.ts:234-244 | zeroing an IPI writes "0.00" into `vIPI` and `vBC` and "0.0000" into `pIPI`, each when it exists |
| Nfe.SumIpi | src/lib/xml/editor.ts:356-371 | the IPI total is a number exactly when every item's IPI is, and then it is their sum |
| Nfe.SumOfConcat | src/lib/xml/editor.ts:357-371 | summing the items splits over any division of the item list |
| Nfe.VNF | src/lib/xml/editor.ts:375-381 | the new total is products + IPI + freight + insurance + other − discount, and NaN when any of them is |
| Nfe.ReadBack | src/lib/xml/editor.ts:384-400 | an amount written with two decimals reads back as the same amount |
| Nfe.RecalcWrites | src/lib/xml/editor.ts:334-403 | when `total/ICMSTot` is found, its `vIPI` reads back as the items' IPI sum and its `vNF` as the new total |
| Nfe.DatesWritten | src/lib/xml/editor.ts:271-286 | under the date override `dhEmi` and `dhSaiEnt` both hold the new timestamp, when they exist |
| Nfe.NfeIdResult | src/lib/xml/editor.ts:299-302 | after the edit the `Id` is "NFe" plus the mapped key when the key is mapped, and the original `Id` otherwise |
| Nfe.ChNFeResult | src/lib/xml/editor.ts:304-311 | when the key is mapped and the protocol's `chNFe` exists, it ends up holding the mapped key |
| Nfe.RewriteReference | src/lib/xml/editor.ts:314-325 | the reference is rewritten and logged when the switch is on, the referenced key is mapped and the tag is found; otherwise nothing happens |
| Nfe.RefNFeRewritten | src/lib/xml/editor.ts:314-325 | when the referenced document has a new key and `ide/NFref/refNFe` exists, it ends up holding that new key |
| Nfe.ReferenceMissesChNFe | src/lib/xml/editor.ts:319-321 | rewriting the reference leaves the protocol's `chNFe` as it was |
| Cancel.RemapIsLastMapped | src/lib/xml/editor.ts:420-428 | with the batch's key map, a non-empty `chNFe` is remapped to the rebuilt key of the last eligible NF-e carrying it, and a remapped value is always the rebuilt key of an NF-e of the batch with that key |
| Cancel.FirstWithNumber | src/lib/xml/editor.ts:469-474 | the first mapped key, in insertion order, with the given invoice number, or none when no key has it |
| Cancel.SettledByNumber | src/lib/xml/editor.ts:462-479 | after the first pass, a tag whose number matches a mapped key ends up holding the first such key |
| Cancel.SettledWithoutNumber | src/lib/xml/editor.ts:462-479 | a tag whose number matches no mapped key keeps its first-pass text |
| Cancel.SyncSettles | src/lib/xml/editor.ts:462-479 | running the number pass again on a settled tag would change nothing |
| Cancel.EventDates | src/lib/xml/editor.ts:432-458 | the date block writes only the new timestamp, and never into a top-level element such as the `chNFe` tags |
| Cancel.ChNFeSettled | src/lib/xml/editor.ts:410-483 | each `chNFe` of the event ends up with its settled key; a document without `infEvento` is untouched |
| Inut.InutIdLayout | src/lib/xml/editor.ts:535-546 | the new `Id` is "ID", the state code, the new or old year, the new or old CNPJ padded to 14, and characters 20..43 of the old `Id` |
| Inut.InutIdOwnParts | src/lib/xml/editor.ts:537-545 | rebuilding a 43-character `Id` from its own parts gives it back |
| Inut.InutIdStable | src/lib/xml/editor.ts:537-545 | rebuilding an already rebuilt `Id` with the same year and CNPJ changes nothing |
| Inut.CnpjStep | src/lib/xml/editor.ts:502-509 | the new CNPJ is the issuer's CNPJ digits when the switch is on, it has one and the `CNPJ` tag is found; none otherwise |
| Inut.DateStep | src/lib/xml/editor.ts:511-521 | the new year is the runtime's year from its third character when the override applies and `ano` is found; none otherwise |
| Inut.PreparedKeepsId | src/lib/xml/editor.ts:499-532 | the CNPJ and date writes leave the `Id` as it was |
| Inut.InutIdResult | src/lib/xml/editor.ts:534-548 | after the edit the `Id` is rebuilt exactly when it is set and a new year or CNPJ was chosen, and kept otherwise |
| Cte.CteIdLayout | src/lib/xml/editor.ts:573-581 | the new `Id` is "CTe", the state code, the new year and month, then the old `Id` from position 7 |
| Cte.CteIdGrows | src/lib/xml/editor.ts:576-581 | an `Id` of "CTe" and 44 characters becomes 49 characters: the new year and month come after the state code, followed by the old year-month and the rest of the old key |
| Cte.IdStepResult | src/lib/xml/editor.ts:571-584 | after the `Id` step the `Id` reads "CTe", the old state code, the new year and month, then the old `Id` from position 7, when it was rebuilt; and the old `Id` otherwise |
| Cte.CteFails | src/lib/xml/editor.ts:572-575 | the CT-e editor fails exactly when `infCte` is found, its `Id` starts with "CTe", the override applies and the date has no year part |
| Cte.CteIdResult | src/lib/xml/editor.ts:570-584 | after a successful edit the `Id` is the rebuilt one when it was to be rebuilt, and the original otherwise |
| Cte.Reference | src/lib/xml/editor.ts:602-611 | the referenced NF-e key is forced to the sale key when there is one; a warning is logged when there is none |
| Cte.ChaveForced | src/lib/xml/editor.ts:602-611 | after a successful edit with a non-empty sale key, the transported NF-e key `infCTeNorm/infDoc/infNFe/chave`, when it is an element, holds that sale key: the sender and protocol steps that follow never write there |
| Cte.ChCteSynced | src/lib/xml/editor.ts:639-647 | when the protocol's `chCTe` exists and the final `Id` starts with "CTe", `chCTe` holds that `Id` without "CTe" |
| Batch.EditOne | src/lib/xml/editor.ts:689-712 | each kind goes to its own editor, which starts from the file's document; only a CT-e can fail |
| Batch.FileOutcome | src/lib/xml/editor.ts:685-735 | a file is saved with its edited document exactly when its editor succeeds with a non-empty log, and fails exactly when its editor does; a file that is kept is one its editor left unchanged, since every write is logged |
| Batch.FailsOnlyCte | src/lib/xml/editor.ts:689-734 | a file fails exactly when it is a CT-e whose `Id` is rebuilt with a date without a year part |
| Batch.UnopenedKept | src/lib/xml/editor.ts:714 | a document its editor does not open is never written back |
| Batch.EditFilesInBatch | src/lib/xml/editor.ts:672-736 | the batch fails exactly when the map builder throws; otherwise every file gets its own outcome, in order, with the maps the builder defines |
| Amounts.ParseFormat | src/lib/xml/editor.ts:390-397 | a centavo amount rendered with two decimals parses back to itself |
| Amounts.ToFixedNaN | src/lib/xml/editor.ts:390-397 | an amount renders as "NaN" exactly when it is NaN |

## Left out

- Reading, parsing, building and writing XML files (`parser.parse`, `saveXml` and its namespace
  clean-up), `fs.readdir` and `fs.rename`: they are I/O. Renaming takes a directory listing and
  a function that says whether a rename succeeded.
- `console.log`/`console.error`, and the de-duplication of log lines before printing: they only
  produce output. The change log is kept in full, in order.
- The clock and the runtime's date parsing: `new Date().toISOString()` and `getFullYear()` are
  the `Config.Runtime` parameters.
- Floating point: `parseFloat` is modelled on decimal texts with at most two decimals; any other
  text is NaN. Sums are exact in centavos, so binary rounding is not modelled.
- The enumeration order of JavaScript objects for integer-like keys. Maps are modelled as lists
  in first-insertion order. JavaScript lists first, in ascending numeric order, every property
  name that is a canonical number below 2^32 − 1, as invoice numbers without leading zeros are.
  Maps keyed by 44-digit access keys are unaffected. `nfeInfos` in renamer.ts is keyed by
  invoice number, so two results depend on this order: the order of the NF-e renames
  (`Renamer.NfeOrder`), and which number `Renamer.KeyTable` keeps among NF-e sharing a key. The
  model keeps the last in first-insertion order; JavaScript keeps the highest-numbered.
- The contents of the CFOP lists in `src/lib/xml/constants.ts`, which is not part of this model.
  They are parameters.
- The shape of the parser's output with `preserveOrder` on, an array of one-key objects with
  the attributes under ":@". The model assumes the keyed shape instead, with every element
  an editor looks for where its tag path names it, starting from the document's own keys. Real
  parser output in the order-preserving shape is neither recognised nor edited by the code
  (`Info.ArrayRootUnrecognised`), and the model's editors describe documents the code never
  reaches.
- Strings are sequences of code points. JavaScript measures `length`, `substring` and
  `padStart` in UTF-16 units. The keys, numbers and dates the model slices are ASCII, where the
  two agree.
- `path.join(dir, name)` is modelled as `dir + "/" + name` (`Renamer.JoinPath`), without its
  normalisation of "." and ".." segments and repeated separators.
- `getXmlInfo`'s `catch`: no modelled lookup throws.
- Editing.OverridesFrame: requires the column names not to be `#text` or `@_Id`, which is always
  true of the profile's columns.
- Nfe.Items: its contract states only that the item loop extends the run with text writes. What
  each item receives is stated step by step by `Editing.OverridesFrame`, `Nfe.CstColumn` and
  `Nfe.ZeroIpiWrites`.
- Nfe.Receipt: states only that the protocol's `dhRecbto` receives the new timestamp, if anything.
- Cte.Sender: states only that the sender overrides are text writes. The loop is the one
  `Editing.OverridesFrame` describes.
- Cte.Protocol: states that `chCTe` is synchronised (`Cte.ChCteSynced`), not the value of `dhRecbto`.
- Cancel.EventDates: states which timestamp is written, not which of `dhEvento`, `dhRecbto` and
  `dhRegEvento` exist.
