# AI agent store: a Dafny model of the component's logic

The web front end stores "agents": named records with a numeric value kept in
an "FHE" envelope. In reality the envelope is only the tag `FHE-` followed by
the Base64 of the number's text. All records live in one shared `agents`
blob on a contract: UTF-8 bytes of a JSON array. Before a stored value is
shown, the user's wallet signs a five-line challenge message.

The model covers the four pieces of sequential logic inside the component:

- **Base64** (`base64.dfy`): the browser's `btoa` and `atob`.
  - `btoa` is section 4 of RFC 4648, padded, and fails on code units above U+00FF.
  - `atob` is the WHATWG forgiving-base64 decode. It drops ASCII whitespace, accepts optional padding, fails on a length of the form 4k+1 or a foreign character, and discards leftover bits.
  - It is built in three layers: bytes to 6-bit values, 6-bit values to alphabet characters, binary strings to bytes.
- **Codec** (`codec.dfy`): `FHEEncryptNumber` and `FHEDecryptNumber`.
  - `Decrypt` returns `None` when `atob` throws.
  - `Numbers.NumberText` stands for `Number.prototype.toString` and `parseFloat`.
- **Challenge** (`challenge.dfy`):
  - the session parameters set at mount time, including the `0x` plus 2000 hex digit key;
  - the challenge message, with its parse-back.
- **Records** (`records.dfy`): the `AgentData` record.
  - `createAgent` appends a record.
  - `loadData` reads the stored list and fails soft to an empty list.
- **Reveal** (`reveal.dfy`):
  - `decryptWithSignature`;
  - the detail modal and its Decrypt/Hide button as a state machine. It is driven by presses, by the wallet settling a signature request, by closing the modal and by clicking a record.
  - Both the handlers as written and a corrected version are modelled (see "## Findings").

`wrappers.dfy` holds the `Option` type. `numbers.dfy` holds JavaScript numbers as the component sees them:
- `NaN` or a value;
- the `|| 0` fallback;
- the decimal text of the integers that are interpolated into strings.

Inputs to the model:
- Nondeterminism: the clock and `Math.random` draws.
- Wallet and contract: connectivity, the signing outcome, contract presence, the fetched bytes.
- Libraries: JSON and UTF-8 conversions (`Records.Serialization`) and number conversions (`Numbers.NumberText`).

## Model

| member | source | states |
|---|---|---|
| Numbers.OrZero | frontend/web/src/App.tsx:100 | `parseFloat(data)` falling back to 0: the parsed value when there is one, 0 when the parse gives NaN (zero stays zero) |
| Numbers.IntToDecimal | frontend/web/src/App.tsx:98 | `${n}` of an integer: non-empty, a leading minus exactly for negatives, digits after it |
| Numbers.DecimalRoundTrip | frontend/web/src/App.tsx:134 | reading the decimal text of an integer gives the integer back, so numbers interpolated into text lose nothing |
| Base64.SextetsOf | frontend/web/src/App.tsx:17 | RFC 4648 grouping: n bytes become ceil(4n/3) six-bit values |
| Base64.BytesOfSextetsOf | frontend/web/src/App.tsx:17-18 | regrouping six-bit values into bytes undoes the splitting of bytes, for every byte string |
| Base64.SextetsOfBytesOf | frontend/web/src/App.tsx:18 | for whole groups of four, splitting the decoded bytes gives the six-bit values back |
| Base64.Encode | frontend/web/src/App.tsx:17 | the `btoa` output is alphabet characters plus at most two `=`, of length 4*ceil(n/3) |
| Base64.Btoa | frontend/web/src/App.tsx:17 | `btoa` succeeds exactly on binary strings (all code units below 256) |
| Base64.EncodeExampleOneByte | frontend/web/src/App.tsx:17 | the encoding `btoa` returns for `"f"` is `"Zg=="`, the vector of section 10 of RFC 4648 |
| Base64.EncodeExampleThreeBytes | frontend/web/src/App.tsx:17 | the encoding `btoa` returns for `"foo"` is `"Zm9v"`, the vector of section 10 of RFC 4648 |
| Base64.BtoaExampleWide | frontend/web/src/App.tsx:17 | `btoa` throws on a code unit above U+00FF |
| Base64.Atob | frontend/web/src/App.tsx:18 | a successful `atob` yields a binary string |
| Base64.AtobInvertsBtoa | frontend/web/src/App.tsx:17-18 | `atob(btoa(s)) == s` for every binary string |
| Base64.BtoaInvertsAtobOnWholeGroups | frontend/web/src/App.tsx:18 | unpadded alphabet text of whole groups decodes, and re-encodes to itself |
| Base64.AtobRejectsForeignChar | frontend/web/src/App.tsx:18 | a character outside the alphabet, whitespace and `=` makes `atob` throw, wherever it stands |
| Base64.AtobExampleOneByte | frontend/web/src/App.tsx:18 | `atob("QQ==")` is `"A"` |
| Base64.AtobExampleLeftover | frontend/web/src/App.tsx:18 | `atob("Q")` throws: one character left after the whole groups carries no byte |
| Base64.AtobExampleShortPadding | frontend/web/src/App.tsx:18 | `atob("QQ=")` throws: padding that does not end a group of four is not stripped |
| Codec.Encrypt | frontend/web/src/App.tsx:17 | every stored value starts with `FHE-` and the rest is padded Base64 |
| Codec.Decrypt | frontend/web/src/App.tsx:18 | decoding fails only on a tagged string whose payload `atob` rejects |
| Codec.DecryptInvertsEncrypt | frontend/web/src/App.tsx:17-18 | decrypting an encryption parses exactly the number's text, giving the number back when `parseFloat` reads its `toString` exactly |
| Codec.DecryptUntagged | frontend/web/src/App.tsx:18 | a string without the tag is parsed as it is and cannot throw |
| Codec.DecryptTagged | frontend/web/src/App.tsx:18 | a tagged string decodes exactly when `atob` accepts its payload, and then to the parse of the decoded text |
| Codec.EncryptInjective | frontend/web/src/App.tsx:17 | different number texts give different stored strings |
| Challenge.MessageIsTemplate | frontend/web/src/App.tsx:134 | the message is the template literal: five `key:value` pieces in order, joined by line feeds |
| Challenge.SplitJoinLines | frontend/web/src/App.tsx:134 | splitting at line feeds recovers lines that have none of their own |
| Challenge.MessageHasFiveLines | frontend/web/src/App.tsx:134 | the message splits into exactly five lines, each key followed by its parameter verbatim |
| Challenge.ParseMessageInvertsMessage | frontend/web/src/App.tsx:134 | with line-feed-free text fields, the message parses back to the session it came from |
| Challenge.MessageInjective | frontend/web/src/App.tsx:134 | with line-feed-free text fields, two sessions have the same message exactly when they are equal |
| Challenge.GeneratePublicKey | frontend/web/src/App.tsx:19 | the key is `0x` and 2000 lower-case hex digits, digit i being floor(16 * draw i) |
| Challenge.InitSession | frontend/web/src/App.tsx:41-51 | the address is set when a contract handle answers, the chain id when a provider answers, otherwise "" and 0; if no lookup throws, the start is the current time in whole seconds and the key is fresh; if one throws, the key stays "" and the start 0; the duration is always 30 days |
| Challenge.InitSessionKeyShowsCompletion | frontend/web/src/App.tsx:41-51 | the key is empty exactly when a lookup threw, and the challenge then carries an empty key and a start of 0 |
| Records.NewAgent | frontend/web/src/App.tsx:97-103 | the new record carries the form's name and the owner's address; its timestamp is the clock floored to seconds, its data is tagged, its id starts with `agent-` |
| Records.CreateAgent | frontend/web/src/App.tsx:84-106 | no wallet or an empty address rejects; otherwise no contract rejects; otherwise the written list is the old list unchanged plus exactly the new record at the end |
| Records.NewAgentDecrypts | frontend/web/src/App.tsx:100 | the stored value decrypts to the runtime's reading of `parseFloat(data)`, or of 0 when that is NaN; unparseable data is stored as 0 |
| Records.NewAgentIdsDistinct | frontend/web/src/App.tsx:98 | records created at different milliseconds get different ids, whatever their forms, owners and timestamps |
| Records.TrimEmpty | frontend/web/src/App.tsx:71 | `trim()` is empty exactly when every character is ECMAScript white space |
| Records.LoadAgents | frontend/web/src/App.tsx:66-74 | empty bytes, undecodable bytes, blank text or a rejected parse each give the empty list; otherwise the parsed list |
| Records.Reload | frontend/web/src/App.tsx:55-82 | without a contract, or when a call fails, the held list is kept |
| Records.LoadInvertsStore | frontend/web/src/App.tsx:66-74 | loading the bytes written for a list gives the list back, when the JSON and UTF-8 conversions invert each other on it |
| Records.CreateThenReload | frontend/web/src/App.tsx:105-109 | a create followed by a reload holds the old list plus the new record |
| Reveal.DecryptWithSignature | frontend/web/src/App.tsx:125-143 | a signature is requested exactly when connected, and only for the session's challenge; a value is returned exactly when connected, signed and decodable, and it is the decoding |
| Reveal.RevealEncrypted | frontend/web/src/App.tsx:133-137 | with a signature, a value written by the encoder comes back as the parse of the number's text |
| Reveal.SignRequest | frontend/web/src/App.tsx:380-386 | a press requests a signature exactly when the modal is open, nothing is shown or pending, and the wallet is connected; the request is the one `decryptWithSignature` makes, whatever the outcome |
| Reveal.StepAsWritten | frontend/web/src/App.tsx:351-386 | the handlers as written: closing clears the selection and the value but keeps the pending call; a settled call stores a non-null result whatever record is selected by then |
| Reveal.AsWrittenShowsOtherRecord | frontend/web/src/App.tsx:380-386 | as written, selecting A, pressing Decrypt, closing, selecting B and then signing shows A's decoding in B's modal, so the view is inconsistent whenever A and B decode differently |
| Reveal.StaleResultWitness | frontend/web/src/App.tsx:380-386 | two concrete records, stored as "1" and "2", on which the as-written handlers reach that inconsistent view |
| Reveal.Step | frontend/web/src/App.tsx:380-386 | corrected handlers: the records never change; a press hides a shown value; a press starts a call exactly when it requests a signature; closing clears the selection and the value; a new value appears only when the call for the selected record settles signed, and it is that record's decoding |
| Reveal.StaleResultDropped | frontend/web/src/App.tsx:351-353 | with the correction, the same trace ends with B selected, nothing shown and nothing pending |
| Reveal.RunKeepsRecords | frontend/web/src/App.tsx:380-386 | with the correction, no sequence of events changes the record list |
| Reveal.AsWrittenKeepsRecords | frontend/web/src/App.tsx:380-386 | as written, no sequence of events changes the record list either |
| Reveal.RunConsistent | frontend/web/src/App.tsx:380-386 | with the correction, in every reachable view a shown value sits in an open modal and is the decoding of that modal's record; pending or shown implies a connected wallet |
| Reveal.ShownNeedsSignedEvent | frontend/web/src/App.tsx:380-386 | with the correction, a value is shown only if some signature settled as signed |
| Reveal.AsWrittenShownNeedsSignedEvent | frontend/web/src/App.tsx:380-386 | as written, a value is likewise shown only if some signature settled as signed |
| Reveal.DisconnectedStaysHidden | frontend/web/src/App.tsx:125-130 | with the correction, without a wallet, nothing shown and nothing pending stays so whatever the events |
| Reveal.AsWrittenDisconnectedStaysHidden | frontend/web/src/App.tsx:125-130 | as written, without a wallet, nothing shown and nothing pending likewise stays so whatever the events |
| Reveal.PressThenSign | frontend/web/src/App.tsx:380-386 | in an open modal with nothing shown, a press then a signature shows exactly the record's decoding (nothing if it does not decode); a refusal shows nothing |
| Reveal.PressHides | frontend/web/src/App.tsx:381-382 | pressing while a value is shown hides it and requests no signature |

## Findings

| source | as written | input that shows it | evidently intended | confidence | as-written member | corrected member |
|---|---|---|---|---|---|---|
| frontend/web/src/App.tsx:380-386 | the result of `decryptWithSignature` is stored in `decryptedData` when the call settles, whatever record is selected by then. Closing the modal (351-353) does not cancel the call | select record A, press Decrypt, close the modal, select record B, then the wallet signs: B's modal shows A's decrypted value | a decrypted value is shown only in the modal of the record it was decrypted for | not executed | Reveal.AsWrittenShowsOtherRecord | Reveal.RunConsistent |

The rest of the model uses the corrected `Reveal.Step`. It drops a result when the modal was closed or another record was selected. Selecting a record starts with nothing shown.

## Left out

- Rendering, tabs, modals, the status banner and its timed dismissals, and the dashboard figures: these are UI only.
- `Reveal.RunConsistent` holds of the corrected handlers only. As written, a result that settles after the modal was closed lands in whatever modal is open next (see "## Findings").
- The Close button in the modal footer (lines 403-405) does the same as the × button (lines 351-353). Both are the one `Close` event.
- Wallet and contract calls are inputs, not modelled:
  - `getContractReadOnly` / `getContractWithSigner`, `isAvailable`, `getData` / `setData`;
  - `eth_chainId`;
  - signing.
- `setData` failing after `createAgent` has built the list is not modelled. The component then keeps its list, and `Records.CreateAgent` only describes what is written.
- `JSON.stringify` / `JSON.parse` and the UTF-8 conversions are parameters (`Records.Serialization`). JSON that parses to something other than a list of records is not modelled.
- `Number.prototype.toString` and `parseFloat` are parameters (`Numbers.NumberText`). Floating point is not modelled: no rounding, infinities or negative zero. Numbers are reals or NaN.
- `Numbers.IntToDecimal` gives plain digits. JavaScript switches to exponent notation at 1e21 and beyond, which is far above any clock value or chain id.
- `Challenge.InitSession`: a chain id that `parseInt` cannot read (NaN) is not modelled. The chain id is taken as already an integer. A rejected lookup is modelled, but the unhandled rejection it leaves is not.
- The 1500 ms delay before decoding is not modelled. Neither is the read-modify-write race between two writers of the shared blob.
- `Reveal.Step`: wallet connectivity is fixed for a run of events. Whether the modal overlay blocks clicks on the list is not known, so a click on a record is allowed at any time. A wallet that disconnects while a signature is pending is not modelled.
- `Math.random` draws and the clock readings are parameters. `createAgent` reads the clock twice, so id and timestamp take separate readings.
