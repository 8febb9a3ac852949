# Verified model of the agent commerce gateway

This project models the parts of the gateway where a wrong step costs money or
delivers the wrong request, and proves what they promise:

- **Holds and payment resolution.** The table of mandate reservations, the
  provider calls that move it, the journal that follows the provider, and the
  reconcile runs and operator verdicts that resolve payment attempts. Every
  store call is one step; gateway requests, reconcile runs, operators and
  crashes interleave freely.
- **Schemas and requests.** OpenAPI conversion, config closing and the runtime
  validator share one meaning, measured against JSON Schema's reading of the
  keywords the converter keeps. For the path template, the input bindings and
  the load-time checks it is proved exactly which accepted inputs build a
  request, and where the request can go.
- **Exact encodings.** RFC 8785 text, base58 length checks and decimal amounts.

Run `dafny verify dfyconfig.toml`.

## How the model reads

| file | part of the gateway |
|---|---|
| `Text`, `Numbers`, `Json`, `JsonText`, `Uri`, `Options`, `Positional` | JavaScript strings (UTF-16 code units), number text, JSON values, `JSON.stringify`, `encodeURIComponent`, positional numbers |
| `CanonicalJson`, `Base58`, `Amount` | the exact encodings |
| `Schema` | the validator, closing, and the load-time schema checks |
| `Refs`, `OpenApiSchema`, `OpenApiConverter` | references and the converter, as functions and as the loops that compute them |
| `OpenApiMeaning`, `AllOf`, `ConversionMeaning` | what the gateway makes of a source schema, and the proof that conversion followed by validation decides exactly that |
| `JsonSchemaMeaning` | what JSON Schema makes of the keywords the converter keeps, under any reading of those it drops, and exactly where the two differ |
| `ConvertedKeywords` | which source schemas convert to one the loader accepts |
| `PathTemplate`, `BackendRequest`, `PathContainment` | the path template, the request split and the containment check |
| `ConfigBackend`, `RequestMapping`, `ImportedRequests`, `DraftLoading`, `LoadedResources` | load-time checks of a backend, imported operations, which of them load, and the load-time checks together with the containment check |
| `HoldTable`, `HoldProvider` | the reservation table and what a provider's normal return means |
| `TransactionState`, `Protocol`, `Reconcile` | derived state, the transition system, and the reconcile code as processes inside it |
| `Pages`, `HoldAlignment`, `OrphanHolds`, `Candidates` | the paginated loops |
| `WholeRun` | the loops' views of the store tied to the transition system, and a reconcile run from its candidate scan to its hold scan |

Code that changes state is a class or a loop proved against a specification
function; code made of expressions is a function. Thrown errors are results.
Maps are finite, so inherited members do not exist, and documents are finite
trees.

### Assumptions

- `HoldTable.OneLiveReservation`: in the replay store a reference determines its
  checkout, as the mandate verifier provides. The receipt store's table needs no
  such assumption.
- `Protocol.Allowed`: identifiers are fresh, each caller makes one conditional
  write, and no request is granted a reference again once a release of its own
  hold on it was journaled or confirmed. The last one cannot be weakened
  (`Protocol.GrantKeepsJournalExactly`, `Protocol.GrantKeepsHoldsExactly`, and a
  run without it in `Protocol.SecondGrantPutsJournalAhead`). The pipeline
  reserves a mandate once per request, before that request has a transaction.
- `HoldAlignment.DistinctHolders`: a request holds a reference through one
  transaction.
- `ConfigBackend.IsData`: an input is JSON data, so no member is `undefined`.

### Where the code differs from what is said about it

- A string with a lone surrogate given for a path parameter makes
  `encodeURIComponent` throw a `URIError`, where only `INPUT_INVALID` is
  documented: exactly when, in `BackendRequest.UriErrorExactly` and
  `BackendRequest.BuildThrowsExactly`, and an input in
  `BackendRequest.LoneSurrogateThrows`.
- A parameter that occurs twice in a template always fails on its second
  occurrence (`BackendRequest.RepeatedParameterNeverFills`).
- An imported operation with neither parameters nor body is written without
  bindings, so a `POST` sends `{}` although the input supplied no body
  (`ImportedRequests.UnboundBuild`, for `POST /` in `DraftLoading.UnaskedBodyIsSent`).
- The zero-price check stops `0` and `0.00` but not `00` (`Amount.AcceptedZeroPrices`).
- Imported schemas are not JSON Schema. Of the keywords the converter keeps, and
  under any reading of those it drops, it is proved exactly where the two part
  (`JsonSchemaMeaning.ValidIsRefusedExactly`,
  `JsonSchemaMeaning.InvalidIsAcceptedExactly` and the lemmas after them).
  The gateway refuses valid values: an object with an undeclared key where a node
  declares properties and says nothing of others; whatever is not an object with
  declared keys under `allOf`; a value that differs from a listed one in the sign
  of a nested zero, under `enum`; and parts that a dropped `patternProperties` or
  `prefixItems` would take from `additionalProperties` or `items`. It accepts
  invalid ones: dropped keywords (`pattern`, `minLength`, `minimum`, `format` and
  the like) are never checked, the validator skips `items` and a lone
  `additionalProperties` on a node without a `type`, and merging drops the
  `additionalProperties: false` of one `allOf` branch. Keywords beside a `$ref`
  are ignored, as OpenAPI 3.0 has it.
- The containment check runs after payment. Where no value can complete a
  literal escape, it never refuses a request exactly when the template itself,
  read as a path (trailing blanks trimmed, dot segments removed, literals
  percent-encoded), stays under its own literal prefix, which the loader does not
  check (`PathContainment.ContainmentIsDecidedByTemplate`); with `/b{x}/..` it
  refuses every request.
- The importer checks the braces of a URL but not its schemas, and writes drafts
  the loader refuses. Which, is decided on the OpenAPI document
  (`DraftLoading.DraftLoadsExactly`); `POST /` with the body
  `{properties: {}, required: [k]}` is one
  (`DraftLoading.UndeclaredBodyNameIsRefused`).
- The replay store keeps a re-reserved row's old checkout, which lets a checkout
  be spent twice when a reference can change checkout
  (`HoldTable.StaleCheckoutSpendsTwice`, exact condition in `HoldTable.StepKeepsOneLive`).
- A candidate scan can miss a reserved payment whose backend deadline passes
  between its last two state scans (`Candidates.MissedOnlyAcrossDeadline`,
  `Candidates.LateEntryIsMissed`).
- The gateway updates attempts by replay key. Its update changes another
  request's attempt exactly when its own was rejected, the key reclaimed, and
  the attempt now under the key is another request's, unresolved, and differs
  from the update in its status or in a reference or reason the update supplies
  (`Protocol.UpdateLandsExactly`, with runs in
  `Protocol.LateUpdateHitsReclaimedKey` and, for an attempt that keeps its status
  and loses its transaction hash, `Protocol.LateUpdateOverwritesReference`).

## Model

| member | source | states |
|---|---|---|
| `Numbers.ReadToString` | src/core/canonical-json.ts:16 | A finite number's text reads back as the same number, up to the sign of zero |
| `CanonicalJson.SortedIsUnique` | src/core/canonical-json.ts:24 | Sorting the member names leaves nothing to choose, so member order cannot show in the text |
| `CanonicalJson.SortKeys` | src/core/canonical-json.ts:24 | The sorting loop returns every key once, in code-unit order |
| `CanonicalJson.CanonicalText` | src/core/canonical-json.ts:13-30 | The recursive printer yields the canonical text, or refuses exactly the values without one |
| `CanonicalJson.CanonicalArray` | src/core/canonical-json.ts:18-21 | Arrays print item by item and are refused as soon as one item has no form |
| `CanonicalJson.CanonicalObject` | src/core/canonical-json.ts:22-29 | Objects print their sorted members and are refused for an unprintable member or a lone surrogate in a name |
| `CanonicalJson.CanonicalIsInjective` | src/core/canonical-json.ts:7-30 | Two values print the same text exactly when they are equal up to member order and the sign of zeros |
| `CanonicalJson.CanonicalRoundTrip` | src/core/canonical-json.ts:7-30 | A parser reads the canonical text back to the value it came from |
| `Base58.Base58ByteLength` | src/payments/x402/addresses.ts:87-93 | The loop over the characters computes the byte length of the number they spell plus one byte per leading `1` |
| `Base58.EncodeDecode` | src/payments/x402/addresses.ts:87-93 | Encoding undoes decoding for every base58 text |
| `Base58.DecodeEncode` | src/payments/x402/addresses.ts:87-93 | Decoding undoes encoding for every byte array, leading zeros included |
| `Base58.EncodedLengthBounds` | src/payments/x402/addresses.ts:21-33 | Encodings of 32 bytes have 32 to 44 characters and of 64 bytes 64 to 88 |
| `Base58.ChecksAcceptExactlyEncodings` | src/payments/x402/addresses.ts:39-85 | The Solana address, Solana signature and NEAR hash checks accept exactly the encodings of 32, 64 and 32 bytes |
| `Base58.EncodingIsInjective` | src/payments/x402/addresses.ts:76-93 | Two byte arrays never share a text |
| `Amount.ParseIsExact` | src/payments/x402/amount.ts:23-50 | The base units times ten to the fraction digits equal the digit string times ten to the decimals |
| `Amount.ParsesExactlyDecimals` | src/payments/x402/amount.ts:24-45 | An amount parses exactly when it is written as digits, with or without a point and at most as many digits after it as the asset has, trailing zeros counted |
| `Amount.OffersAgree` | src/payments/x402/amount.ts:23-50 | Offers with different decimals charge the same value |
| `Amount.AcceptedPriceParsesForEveryOffer` | src/config/schema/resources.ts:145-152 | A price accepted against the coarsest offer parses for every offer |
| `Amount.AcceptedZeroPrices` | src/config/schema/resources.ts:280-300 | Config accepts a price worth zero exactly when it has several digits before the point, all of them zero |
| `Amount.DoubleZeroIsAccepted` | src/config/schema/resources.ts:282-300 | `00` is accepted and parses to zero |
| `Amount.ParseUndoesFormat` | src/payments/x402/amount.ts:1-50 | Parsing a printed base-unit amount gives it back, for every amount and precision |
| `Schema.ValidateNode` | src/core/execution/validation.ts:116-151 | The validator reports no error exactly for accepted values, and every error lies under the given path |
| `Schema.ValidateObject` | src/core/execution/validation.ts:153-194 | The member loops report no error exactly when required names are present and every member is accepted |
| `Schema.ValidateArray` | src/core/execution/validation.ts:196-205 | The item loop reports no error exactly when every item is accepted |
| `Schema.ClosingIsExact` | src/config/schema/resource-schema.ts:17-52 | The closed schema accepts a value exactly when the original does and every node silent about additional keys has only declared ones |
| `Schema.ClosingLeavesNothingOpen` | src/config/schema/resource-schema.ts:17-52 | Closing leaves no reachable object node open by omission, and is idempotent |
| `Schema.ClosedMeansDeclared` | src/core/execution/validation.ts:174-191 | Under a schema closed at every depth an accepted value has only declared keys |
| `Schema.ValidateKeywords` | src/config/schema/resource-schema.ts:106-170 | The walk accepts a schema exactly when no node at any depth excludes its own object keywords or requires an undeclared name while closed |
| `Schema.RefusedNodesAcceptNoObject` | src/config/schema/resource-schema.ts:128-148 | A node refused for an undeclared required name accepts no object once closed |
| `Schema.AcceptedNodesAreObjectNodes` | src/config/schema/resource-schema.ts:118-127 | Past the load check, `properties` and `required` are enforced on every object |
| `Uri.EncodesUnlessLoneSurrogate` | src/core/execution/backend-request.ts:183 | Encoding a value throws exactly when it has a lone surrogate |
| `Uri.DecodeUndoesEncode` | src/core/execution/backend-request.ts:183 | The backend decodes the value the caller sent |
| `Refs.ResolvePointer` | src/openapi/refs.ts:72-118 | The segment loop finds what walking the decoded segments from the root finds, or nothing |
| `Refs.Dereference` | src/openapi/refs.ts:35-69 | The loop over `current` and `chain` computes the end of the reference chain, ends, and keeps the chain within 100 |
| `Refs.DerefIsExact` | src/openapi/refs.ts:35-69 | A reference resolves exactly when its hops end at a non-reference, unrepeated and within the bound |
| `OpenApiConverter.ConvertNode` | src/openapi/schema.ts:86-103 | The converter ends on every document and computes the conversion function |
| `OpenApiConverter.ConvertKeywords` | src/openapi/schema.ts:104-172 | The keyword steps build exactly the converted node |
| `OpenApiConverter.ConvertDeclared` | src/openapi/schema.ts:121-135 | The property loop converts each declared property once and refuses `__proto__` |
| `OpenApiConverter.MergeAllOf` | src/openapi/schema.ts:219-282 | The branch loop collects exactly the merge of all converted branches |
| `OpenApiConverter.EverythingReachedConverts` | src/openapi/schema.ts:86-172 | A schema converts only if everything it leads to through properties, items, additional properties, branches and references does |
| `OpenApiConverter.RecursiveSchemaIsRefused` | src/openapi/schema.ts:86-172 | A reference that leads back to itself through any keywords, at any depth and across any other references, does not convert |
| `OpenApiConverter.SelfContainedConvertsExactly` | src/openapi/schema.ts:86-209 | A schema without references or `allOf` converts exactly when it has no choice or negation keyword, a JSON type where one is stated and no `__proto__` property, at any depth |
| `AllOf.JoinsIff` | src/openapi/schema.ts:234-276 | Branches merge exactly when each can be merged and all agree on shared properties |
| `AllOf.JoinAllCollects` | src/openapi/schema.ts:234-281 | A merge holds every branch's properties, required names and openness, and nothing else |
| `AllOf.MergeIsConjunction` | src/openapi/schema.ts:211-282 | The merged schema accepts a value exactly when it is an object meeting every branch and, unless a branch is open, using only declared keys |
| `AllOf.OpenedMergeIsConjunction` | src/openapi/schema.ts:211-282 | With undeclared keys let through, the merge accepts exactly the objects meeting every branch |
| `AllOf.MergeIgnoresOrder` | src/openapi/schema.ts:234-276 | Neither success nor acceptance depends on branch order |
| `ConversionMeaning.TypesDecideMeaning` | src/openapi/schema.ts:188-201 | The resolved types accept exactly the declared types plus null where `nullable` says so |
| `ConversionMeaning.ConvertAgrees` | src/openapi/schema.ts:86-172 | Induction through references, properties, items and branches: the converted node decides the source's meaning, open and closed, and declares its names |
| `ConversionMeaning.ConversionPreservesMeaning` | src/openapi/schema.ts:86-172 | For every document and node that converts, the validator accepts a value under the result exactly when the value satisfies the source |
| `JsonSchemaMeaning.AcceptanceAgainstJsonSchema` | src/openapi/schema.ts:86-172 | For every document, node, value and reading of the dropped keywords: accepted, with what the gateway skips holding, is the same as valid with the gateway's extras met |
| `JsonSchemaMeaning.ValidIsRefusedExactly` | src/openapi/schema.ts:147-154 | A valid value is refused exactly when some reached node has an undeclared key, an `allOf` value is no object, an `enum` tells a nested zero's sign apart, or a part that a dropped keyword takes over misses `additionalProperties` or `items` |
| `JsonSchemaMeaning.InvalidIsAcceptedExactly` | src/core/execution/validation.ts:144-148 | An accepted value is invalid exactly when a keyword the converter drops or the validator skips does not hold of it |
| `JsonSchemaMeaning.LooseItemsAreSkipped` | src/core/execution/validation.ts:146-148 | On a node without a type, every array is decided by `enum` alone, while validity also asks `items` of each element |
| `JsonSchemaMeaning.LooseItemsExactly` | src/core/execution/validation.ts:146-148 | Such a node decides arrays as JSON Schema does exactly when, without `enum`, nothing unchecked refuses any, and with it, it lists exactly the arrays that it allows and nothing unchecked refuses |
| `JsonSchemaMeaning.LoneAdditionalIsSkipped` | src/core/execution/validation.ts:110-114 | On a node without type, properties and required names, every object is decided by `enum` alone, while validity also asks `additionalProperties` of each member |
| `JsonSchemaMeaning.LoneAdditionalExactly` | src/core/execution/validation.ts:110-114 | Such a node decides objects as JSON Schema does exactly when, without `enum`, nothing unchecked refuses any, and with it, it lists exactly the objects that it allows and nothing unchecked refuses |
| `JsonSchemaMeaning.ClosedBranchIsWidened` | src/openapi/schema.ts:264-274 | A key one `allOf` branch refuses makes an object invalid, whatever the other branches declare |
| `JsonSchemaMeaning.EmptyPropertiesRefuseKeys` | src/openapi/schema.ts:147-154 | `{properties: {}}` is valid for every value and refuses every object with a key |
| `JsonSchemaMeaning.AllOfRefusesNonObjects` | src/openapi/schema.ts:219-282 | An `allOf` of two such nodes is valid for every value and accepts the empty object alone |
| `JsonSchemaMeaning.ClosedBranchAcceptsOtherKeys` | src/openapi/schema.ts:264-281 | A concrete `allOf` with a closed branch, and an invalid object it accepts |
| `JsonSchemaMeaning.ArrayOfStringsWithoutType` | src/core/execution/validation.ts:144-148 | A concrete schema of strings without `type: array`, and an invalid array it accepts |
| `JsonSchemaMeaning.NestedZeroIsRefused` | src/core/execution/validation.ts:82-85 | Under `{enum: [[0]]}` the array holding negative zero is valid and refused |
| `JsonSchemaMeaning.PatternIsNotChecked` | src/openapi/schema.ts:164-169 | Under `{type: string, pattern: p}` every string is accepted, whatever the pattern says of it |
| `ConvertedKeywords.ConvertWalks` | src/config/schema/resource-schema.ts:106-170 | Induction through references, properties, items and branches: what the load walk finds at the converted node and below it, and the names it requires, read off the source |
| `ConvertedKeywords.MergedRefused` | src/config/schema/resource-schema.ts:128-148 | The walk refuses a merged `allOf` node exactly when no branch is open and some branch requires a name no branch declares |
| `ConvertedKeywords.LoaderAcceptsExactly` | src/config/schema/resource-schema.ts:106-170 | The loader accepts the schema a node converts to exactly when the node and all it leads to put object keywords where an object is allowed and require only declared names unless they are open |
| `JsonText.StringifyIsPaired` | src/core/execution/backend-request.ts:204-213 | The text of an object or array never has a lone surrogate |
| `JsonText.NumberIsPaired` | src/core/execution/backend-request.ts:207 | The text of a number is never a dot segment |
| `PathTemplate.SourceOfParse` | src/core/execution/backend-request.ts:18-27 | Splitting a template into parameters and literals loses nothing |
| `PathTemplate.ParseOfSource` | src/core/execution/backend-request.ts:18-27 | The pattern finds exactly the parameters a template was written with |
| `PathTemplate.NoOpenBrace` | src/core/execution/backend-request.ts:25-27 | Text before the first brace holds no parameter |
| `BackendRequest.ApplyPathTemplate` | src/core/execution/backend-request.ts:161-202 | The replacement loop, deleting each key as it is used, computes the filled path and the rest, or the failure with the right precedence |
| `BackendRequest.ApplyIsExact` | src/core/execution/backend-request.ts:156-202 | A path is built exactly when names are distinct and every value is present and usable; what remains is every other member |
| `BackendRequest.UsableIsExact` | src/core/execution/backend-request.ts:156-184 | The unusable values are null, undefined, the strings "", "." and "..", and strings with a lone surrogate, and no others |
| `BackendRequest.RepeatedParameterNeverFills` | src/core/execution/backend-request.ts:172-177 | With a repeated parameter no input is served |
| `BackendRequest.FailureNamesItsParameter` | src/core/execution/backend-request.ts:169-200 | With distinct names, the parameter reported missing is absent from the input and the one reported invalid prints as empty or a dot segment |
| `BackendRequest.UriErrorExactly` | src/core/execution/backend-request.ts:171-184 | Filling throws a `URIError` exactly when a value given for a named parameter is a string with a lone surrogate |
| `BackendRequest.BuildThrowsExactly` | src/core/execution/backend-request.ts:88-125 | The same for the whole request, where the values come from the input or from its path group |
| `BackendRequest.LoneSurrogateThrows` | src/core/execution/backend-request.ts:183 | `/{x}` with a single high surrogate throws |
| `BackendRequest.DefaultSplitLosesNothing` | src/core/execution/backend-request.ts:100-106 | Without bindings every member is sent exactly once, in the path or in the query or body |
| `BackendRequest.BoundRequestIsExact` | src/core/execution/backend-request.ts:108-137 | With bindings, exactly which inputs build a request, and what its query and body are |
| `PathContainment.EncodedShape` | src/core/execution/backend-request.ts:156-159 | An encoded value stays in its segment and is all dots only where the value is |
| `PathContainment.PrefixIsLiteral` | src/core/execution/backend-http.ts:217-233 | The text before the first brace is the template's literal prefix |
| `PathContainment.ValueBreaksDots` | src/core/execution/backend-request.ts:156-159 | After literals no value completes into dots, whatever follows an accepted value, the segment is no dot segment |
| `PathContainment.FillingKeepsSegments` | src/core/execution/backend-http.ts:72-74 | A filled path resolves to the template's own resolved segments, filled: values add, remove and become no segment |
| `PathContainment.ContainedExactly` | src/core/execution/backend-http.ts:84-93 | For each input the check passes exactly when the template's filled segments begin with the prefix's |
| `PathContainment.ContainmentNeverFires` | src/core/execution/backend-http.ts:84-93 | Where the template itself stays under its literal prefix and leaves no escape for a value to complete, no built request is refused after payment |
| `PathContainment.ContainmentIsDecidedByTemplate` | src/core/execution/backend-http.ts:84-93 | With distinct names and complete escapes, the check can never fire exactly when the template itself stays under its prefix; otherwise some ordinary values make it fire |
| `PathContainment.NeverClimbingIsUnder` | src/core/execution/backend-http.ts:84-93 | A template without a literal parent segment from its first parameter on stays under its prefix |
| `PathContainment.AstrayIsAlwaysRefused` | src/core/execution/backend-http.ts:84-93 | A template whose literal segments climb past the prefix, and do not write it again, is refused for every input |
| `PathContainment.ParentSegmentEscapes` | src/core/execution/backend-http.ts:84-93 | `/b{x}/..` is one: every request it builds is refused |
| `PathContainment.CutEscapeEscapes` | src/core/execution/backend-http.ts:84-93 | The condition on escapes is needed: `/%2{x}` accepts the value `e`, which turns its segment into a dot, and the check refuses it |
| `ConfigBackend.ValidateInputBindings` | src/config/schema/backend.ts:20-107 | The loop with its `seen` map accepts exactly the separate, declared, unreserved bindings that fit, and returns the scope of path parameters |
| `ConfigBackend.ValidatePathParametersDeclared` | src/config/schema/backend.ts:117-190 | The check passes exactly when no brace is stray, the host is complete and every parameter is declared and required |
| `ConfigBackend.LoadedUrlSplits` | src/config/schema/backend.ts:137-162 | A loaded URL is an operator-written origin followed by a path that holds every parameter |
| `ConfigBackend.PathValuesArePresent` | src/config/schema/backend.ts:109-190 | An accepted input supplies every parameter, with or without bindings |
| `ConfigBackend.AcceptedConfigSuppliesParameters` | src/config/schema/backend.ts:20-190 | A loaded resource with distinct names never reports a missing parameter; with a repeated name it serves no input |
| `ConfigBackend.AcceptedConfigFailsOnlyOn` | src/config/schema/backend.ts:20-190 | Exactly which accepted inputs still fail to build a request |
| `ConfigBackend.NonObjectSuppliesNothing` | src/core/execution/backend-request.ts:58-62 | A non-object input, which a schema without `type` accepts, misses every parameter |
| `RequestMapping.MergeParameters` | src/openapi/request.ts:194-205 | The loop over the parameters fills the identity map |
| `RequestMapping.LastDefinitionWins` | src/openapi/request.ts:189-205 | Each identity is kept once, with its last definition |
| `RequestMapping.ConvertParameter` | src/openapi/request.ts:214-245 | A supported parameter has a primitive schema |
| `RequestMapping.MapOperation` | src/openapi/request.ts:54-187 | The parameter loop, the template check and the body compute the mapping, or skip the operation |
| `ImportedRequests.GroupsAreExact` | src/openapi/request.ts:76-129 | An operation that is not skipped collects exactly its template's path parameters and the query parameters that can be sent |
| `ImportedRequests.SkippedExactly` | src/openapi/request.ts:81-129 | The parameters skip an operation exactly when a required one cannot be sent, in whatever order they come |
| `ImportedRequests.AcceptedInput` | src/openapi/request.ts:149-187 | Every accepted input has its path group complete, no undeclared key in any group, and the body where it is required |
| `ImportedRequests.BoundBuild` | src/openapi/request.ts:149-187 | With bindings, accepted inputs build except on an unusable path value |
| `ImportedRequests.UnboundBuild` | src/openapi/draft.ts:140-147 | An operation with nothing to bind accepts only the empty object and sends it as the body where the method has one |
| `ImportedRequests.ImportedOperationsBuild` | src/openapi/request.ts:54-187 | Every accepted input of an imported operation builds exactly when its path values are usable, throws a `URIError` exactly for a lone surrogate among them, and otherwise carries declared query keys and the supplied body |
| `ImportedRequests.ImportedBindingsPass` | src/openapi/request.ts:149-171 | Config accepts every generated binding block and finds every path parameter where it looks |
| `ImportedRequests.ImportedDraftLoadsExactly` | src/config/schema/resource-schema.ts:106-170 | The loader accepts an imported draft exactly when its URL is whole and each converted parameter schema and the converted body schema pass the keyword walk |
| `ImportedRequests.PrimitiveAccepted` | src/config/schema/resource-schema.ts:118-127 | A parameter schema passes it exactly when it carries no object keywords and what it nests passes |
| `ImportedRequests.OverRequiringBodyIsRefused` | src/config/schema/resource-schema.ts:128-148 | A closed body schema that requires a name it does not declare makes a draft the loader refuses |
| `ImportedRequests.OverRequiringNodes` | src/openapi/schema.ts:121-154 | Every plain source node that declares properties, does not let others through and requires one more converts to such a schema |
| `DraftLoading.OneOfEachName` | src/openapi/request.ts:189-205 | No two merged parameters share a location and a name |
| `DraftLoading.EntriesAreParameters` | src/openapi/request.ts:76-129 | Every property of the generated groups is one of the operation's parameters, converted |
| `DraftLoading.DraftLoadsExactly` | src/config/schema/resource-schema.ts:106-170 | The loader accepts an imported draft exactly when its URL is whole and the document's own schemas of the carried parameters and of the body fit, through every reference and `allOf` |
| `DraftLoading.UndeclaredBodyNameIsRefused` | src/config/schema/resource-schema.ts:128-148 | `POST /` with body `{properties: {}, required: [k]}` is mapped, and its draft is refused |
| `DraftLoading.UnaskedBodyIsSent` | src/openapi/draft.ts:140-147 | `POST /` with neither parameters nor body accepts the empty object alone and sends it as a body |
| `LoadedResources.LoadedPathIsWhole` | src/config/schema/backend.ts:137-162 | A loaded, templated URL is an origin without braces followed by a path without stray ones |
| `LoadedResources.LoadedRequestsStayUnder` | src/core/execution/backend-http.ts:84-93 | A loaded resource whose own path stays under its prefix: every request built from any input keeps the operator's origin and passes the containment check |
| `HoldTable.Store.ReserveTx` | src/authorization/ap2/replay-store.ts:139-169 | The new table, who is granted, and which state a refusal reports |
| `HoldTable.Store.MoveTo` | src/authorization/ap2/replay-store.ts:171-185 | The guarded update and the answer, including the acknowledged release of an old holder |
| `HoldTable.ConsumedIsForever` | src/authorization/ap2/replay-store.ts:126-134 | Over every run a consumed row never changes |
| `HoldTable.OneConsumer` | src/authorization/ap2/replay-store.ts:171-185 | At most one request is ever told that its consume of a reference applied |
| `HoldTable.StepKeepsOneLive` | src/authorization/ap2/replay-store.ts:108-125 | One live row per checkout is kept by a call exactly when the call does not revive a row whose stored checkout is taken |
| `HoldTable.OneLiveReservation` | src/storage/receipts/holds.ts:65-118 | Over every run no two unreleased rows share a checkout |
| `HoldTable.CheckoutSpentOnce` | src/storage/receipts/holds.ts:65-118 | At most one mandate per checkout is ever consumed |
| `HoldTable.StaleCheckoutSpendsTwice` | src/authorization/ap2/replay-store.ts:121-125 | A run of the replay store in which one checkout is consumed twice |
| `HoldProvider.Provider.VerifyAndReserve` | src/authorization/ap2/provider.ts:133-181 | A normal return means the row is reserved for this request; a refusal changes nothing |
| `HoldProvider.Provider.Finalize` | src/authorization/ap2/provider.ts:183-198 | A normal return means the row is in the requested state for this request, or released to someone else |
| `HoldProvider.ReturnMeansConfirmed` | src/authorization/ap2/provider.ts:183-208 | An update is answered applied exactly when the row confirms it, and repeating it is applied again and changes nothing |
| `TransactionState.ScannedStates` | src/core/domain/transaction.ts:111-138 | Unresolved payments, and settled ones in delivery, are exactly those in a scanned state |
| `TransactionState.PrefilterLosesNothing` | src/storage/receipts/store.ts:87-90 | Selecting by cached state or time dependence misses no row in the wanted state |
| `TransactionState.WaitingEnds` | src/core/domain/transaction.ts:121-137 | Time alone changes a state only by ending a wait at its deadline, and then to delivery unknown for a settled payment and to pending for another |
| `TransactionState.ScanMissesOnlyAcrossDeadline` | src/core/execution/reconcile.ts:577-604 | Three scans in order miss an unresolved payment exactly when its deadline passes between the last two |
| `Protocol.StepKeepsHolds` | src/core/execution/reconcile.ts:512-556 | Every step of every process keeps the journal backed by the provider's rows |
| `Protocol.JournalNeverAhead` | src/core/execution/reconcile.ts:512-556 | Over every interleaving and crash, a journal hold `consumed` or `released` is backed by the provider's row |
| `Protocol.GrantKeepsJournalExactly` | src/authorization/ap2/replay-store.ts:121-125 | In any state a grant keeps the journal behind the provider exactly when no transaction of that request and reference has its hold journaled `released` |
| `Protocol.GrantKeepsHoldsExactly` | src/authorization/ap2/replay-store.ts:121-125 | It keeps the whole invariant exactly when, besides, no such release was confirmed to a process that may still journal it |
| `Protocol.SecondGrantPutsJournalAhead` | src/authorization/ap2/replay-store.ts:121-125 | A run that grants one request its released reference again puts the journal ahead |
| `Protocol.StepExtends` | src/storage/receipts/store.ts:355-364 | No step changes a resolved attempt, not even a reclaim of its key |
| `Protocol.ResolutionIsFinal` | src/core/interfaces/store.ts:163-164 | Once resolved, an attempt is the same at every later point |
| `Protocol.ResolutionIsUnique` | src/core/interfaces/store.ts:214-219 | An attempt has at most one resolution over the whole run |
| `Protocol.ToldMeansWritten` | src/core/execution/reconcile.ts:432-452 | A caller is told its write applied exactly when one attempt, and only one, carries it |
| `Protocol.ResolutionsAreJustified` | src/core/execution/reconcile.ts:424-430 | A rejection rests on a not-settled answer or on a verdict whose recorded expiry had passed, or was unreadable and confirmed |
| `Protocol.YoungReservedIsNeverResolved` | src/core/execution/reconcile.ts:413-418 | No write resolves a reserved attempt below the age its caller applied |
| `Protocol.ChangeMeans` | src/storage/receipts/store.ts:265-276 | An update changes an attempt it writes in its status, or in a reference or reason it supplies, and nothing clears either |
| `Protocol.UpdateIsForeignExactly` | src/storage/receipts/store.ts:270-276 | In any state an update changes another request's attempt exactly when one holds the sender's key, is unresolved, and differs in status or in a supplied reference or reason |
| `Protocol.CurrentUnlessReclaimed` | src/storage/receipts/store.ts:247-260 | Over every run an attempt holds its key exactly until it is rejected and its key reclaimed |
| `Protocol.UpdateLandsExactly` | src/storage/receipts/store.ts:270-276 | Over every run, exactly when an update changes its sender's own attempt, and exactly when another request's |
| `Protocol.LateUpdateHitsReclaimedKey` | src/storage/receipts/store.ts:256-276 | A run in which the update of the process behind a rejected attempt settles the attempt of the request that reclaimed its key |
| `Protocol.LateUpdateOverwritesReference` | src/storage/receipts/store.ts:265-276 | A run in which such an update leaves the other request's attempt settled and replaces its transaction hash |
| `Reconcile.World.Await` | src/core/execution/reconcile.ts:512-514 | Whatever others do during an await, each caller's own reading, decision and writes stay, and the store only grows |
| `Reconcile.AlignHold` | src/core/execution/reconcile.ts:515-556 | A written entry means the journal hold is at its target and backed; a journal error means the provider had confirmed it |
| `Reconcile.ResolveManually` | src/core/execution/reconcile.ts:389-453 | The caller is told `resolved` exactly when its own justified write applied, whatever others do meanwhile; each refusal holds of the attempt, `not_resolvable` as it was read or as it was overtaken during the call |
| `Reconcile.WriteVerdict` | src/core/execution/reconcile.ts:432-453 | The conditional write of a verdict and, when it finds no row, a refusal that was true of the attempt during the call |
| `Reconcile.ResolveAndAlign` | src/core/execution/reconcile.ts:389-467 | The verdict stands whatever becomes of the hold update that follows it |
| `Reconcile.WriteAnswer` | src/core/execution/reconcile.ts:164-190 | One definite answer becomes one conditional write, reported truthfully; when the write fails, whatever it wrote is that answer |
| `Reconcile.SettleCandidates` | src/core/execution/reconcile.ts:157-206 | Without a storage error an entry says `written` exactly when its own write applied; with one, whatever was written is the verdict it reports; unknown answers and dry runs write nothing |
| `Pages.PageFromCursor` | src/storage/receipts/store.ts:735-782 | A page holds the next kept rows in order and none is skipped |
| `HoldAlignment.OthersKeepAnswer` | src/authorization/ap2/replay-store.ts:171-185 | Another transaction's hold update never changes the provider's answer to this one |
| `HoldAlignment.AlignKeepsHeading` | src/core/execution/reconcile.ts:512-556 | No hold update, whatever fails in it, changes the state successful passes reach |
| `HoldAlignment.HistoriesConverge` | src/core/execution/reconcile.ts:231-258 | Any history of failed and crashed passes followed by a successful one ends in the same state |
| `HoldAlignment.StaysPendingExactly` | src/core/execution/reconcile.ts:481-556 | A resolved payment keeps a pending hold exactly when its provider is missing or refuses |
| `HoldAlignment.FullPassLeavesNothing` | src/core/execution/reconcile.ts:231-258 | With matching reservations nothing resolved stays pending, and a second pass changes nothing |
| `HoldAlignment.Pass.AlignPage` | src/core/execution/reconcile.ts:247-254 | The loop over a page aligns the listed transactions and no others, up to the limit |
| `HoldAlignment.Pass.AlignPendingHolds` | src/core/execution/reconcile.ts:234-258 | The cursor loop ends, and without faults or a limit reaches the aligned state |
| `OrphanHolds.Holds.ListOrphans` | src/storage/receipts/holds.ts:36-43 | The orphans before the cutoff, by age and then reference, each once, none skipped below the limit |
| `OrphanHolds.Holds.ReleaseUnseen` | src/core/execution/reconcile.ts:285-317 | Each unseen hold of a page is handled once; a released one is no longer an old reservation |
| `OrphanHolds.Holds.ReleaseOrphanHolds` | src/core/execution/reconcile.ts:262-319 | The loop ends for every interference, handles no reference twice, keeps the limit, and when every release succeeds leaves no orphan or reaches the limit |
| `Candidates.ScanState` | src/core/execution/reconcile.ts:579-604 | The paged scan of one state finds what scanning every row finds, up to the limit |
| `Candidates.CollectCandidates` | src/core/execution/reconcile.ts:561-614 | The result is the unlimited result cut at the limit |
| `Candidates.JournaledIsComplete` | src/core/execution/reconcile.ts:561-604 | The journaled candidates are exactly the eligible unresolved attempts, each once |
| `Candidates.MissedOnlyAcrossDeadline` | src/core/execution/reconcile.ts:577-604 | Over a moving clock an eligible entry is missed exactly when its deadline passes between the last two scans |
| `Candidates.LateEntryIsMissed` | src/core/execution/reconcile.ts:577-604 | A store and a clock with which an eligible reserved payment is missed, and found when the clock stands still |
| `Candidates.CandidatesAreExact` | src/core/execution/reconcile.ts:561-614 | With the attempts that have no journal entry, every candidate is eligible and listed once |
| `WholeRun.AlignIsSteps` | src/core/execution/reconcile.ts:512-556 | A hold update of the listed books is a provider step and, when it succeeds, a journal step of the transition system, and touches nothing else |
| `WholeRun.HistoryIsSteps` | src/core/execution/reconcile.ts:231-258 | So is every history of failed, crashed and complete passes |
| `WholeRun.PassesNeverRunAhead` | src/core/execution/reconcile.ts:512-556 | After any such history from any reachable store, every listed hold that is consumed or released is justified by the provider's row |
| `WholeRun.EveryEligibleIsFound` | src/core/execution/reconcile.ts:561-604 | While the clock stands still, an unlimited scan finds the attempt of every transaction that may be checked |
| `WholeRun.CheckCandidates` | src/core/execution/reconcile.ts:152-206 | From the scan to the last write, among other processes: one entry for each candidate, in order, each true of that candidate's own write |
| `WholeRun.ScanHolds` | src/core/execution/reconcile.ts:231-258 | Among other processes every hold due in the listing is reported, up to the limit, and an `aligned` or `journal_error` report was confirmed by the provider |
| `WholeRun.RunReconcile` | src/core/execution/reconcile.ts:152-228 | The whole report up to the orphan scan is true of the store the run leaves, and the hold scan asks, for every open hold of an attempt the run resolved, for what the verdict calls for |

## Left out

- Refs.ResolvePointer: an array segment is read as decimal digits or as empty (index 0); other spellings that `Number()` reads as an integer, such as `1e0` or `0x1`, name nothing here.
- RequestMapping.MapOperation: which JSON media type the importer picks among several is a parameter, because the choice compares names by locale; header names are lowered by ASCII letters.
- PathContainment.CutEscapeEscapes: one template; for templates with a cut escape the exact condition, over every completion of a cut segment, is not stated.
- PathContainment.FillingKeepsSegments: literals are percent-encoded after tabs and line breaks are dropped, so two halves of a surrogate pair with such a character between them count as a pair here and as two replacement characters in the URL parser.
- ConfigBackend.ValidatePathParametersDeclared: the origin of the text before the first brace is a parameter, because parsing hosts is not modelled.
- WholeRun.RunReconcile: the candidates are collected from one snapshot of the store; the scan for orphan holds is proved on its own, each of its releases being one step of the transition system.
- Protocol.UpdateLandsExactly: `updated_at`, which every update sets, is not modelled.
- Candidates.CollectCandidates: one store snapshot, and one reading of the clock for each of the three state scans.
- HoldAlignment.Pass.AlignPendingHolds: one process; alignment among other processes is `WholeRun.ScanHolds`, which lists the holds at once instead of page by page.
- OrphanHolds.Holds.ReleaseOrphanHolds: the age threshold is not negative, as a parsed duration never is; with a cutoff in the future new reservations could prolong the loop.
- OrphanHolds.Holds.ListOrphans: references compare by UTF-16 code unit, which differs from the database's byte order only for surrogates.
- Number printing computes the layout of the shortest digits, not the digits themselves.
- `JSON.stringify` of an object lists members in sorted order where JavaScript keeps insertion order; only its shape matters here.
- Error messages, diagnostics, dropped-keyword lists, logging and the text of validation paths.
- Zod shape checks, environment substitution, network tables, headers and the query-collision check: one-branch rules.
- Signature and token verification, digests, HTTP calls, chain lookups: a verified mandate is given data, and a provider's answer is any of settled, not settled, unknown or a throw.
- Idempotency claims, pending tasks, receipts and events of the receipt store.
- Delivery of a paid request, the payment challenge and pricing in the execution pipeline: the pipeline appears as the steps that reserve, settle, finalize and crash.
