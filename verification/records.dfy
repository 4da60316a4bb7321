/** The agent records of the component: the record shape, the append made by
    `createAgent`, and the fail-soft reading of the shared `agents` blob made
    by `loadData`. The contract storage, JSON and UTF-8 are outside the
    component; they enter as inputs. */
module Records {
  import opened Wrappers
  import opened Numbers
  import Base64
  import Codec

  /** `AgentData`: one stored agent. `timestamp` is in whole seconds. */
  datatype Agent = Agent(
    id: string,
    name: string,
    encryptedData: string,
    timestamp: int,
    owner: string)

  /** The create form: the agent's name and the numeric text to store. */
  datatype Form = Form(name: string, data: string)

  /** The library conversions between a record list and the stored bytes:
      `JSON.stringify`, `JSON.parse` (`None` when it throws), and
      `ethers.toUtf8Bytes` / `ethers.toUtf8String` (`None` when decoding
      throws). */
  datatype Serialization = Serialization(
    stringify: seq<Agent> -> string,
    parse: string -> Option<seq<Agent>>,
    encodeUtf8: string -> seq<Base64.Byte>,
    decodeUtf8: seq<Base64.Byte> -> Option<string>)

  // ---------------------------------------------------------------------
  // Creating an agent
  // ---------------------------------------------------------------------

  /** Why `createAgent` stops before writing: no connected wallet (or no
      address), or no contract handle ("No contract" is thrown and caught). */
  datatype CreateError = WalletNotConnected | NoContract

  /** What `createAgent` hands to `setData`, or why it did not get that far. */
  datatype CreateResult = Rejected(error: CreateError) | Write(updated: seq<Agent>)

  /** The record built from the form: its id and timestamp come from two
      readings of the clock in milliseconds, the owner is the connected
      address, and the data is the encoding of `parseFloat(data) || 0`. */
  function NewAgent(form: Form, address: string, idClockMs: nat, stampClockMs: nat, fmt: NumberText): (a: Agent)
    ensures a.name == form.name && a.owner == address
    ensures a.timestamp * 1000 <= stampClockMs < (a.timestamp + 1) * 1000
    ensures Codec.HasTag(a.encryptedData)
    ensures |a.id| > |"agent-"| && a.id[..|"agent-"|] == "agent-"
  {
    Agent(
      "agent-" + IntToDecimal(idClockMs),
      form.name,
      Codec.Encrypt(fmt, OrZero(fmt.parse(form.data))),
      stampClockMs / 1000,
      address)
  }

  /** `createAgent`: a missing wallet or an empty address rejects first, then
      a missing contract; otherwise the list to store is the current list with
      the new record added at the end. */
  function CreateAgent(
    connected: bool, address: Option<string>, hasContract: bool,
    agents: seq<Agent>, form: Form, idClockMs: nat, stampClockMs: nat, fmt: NumberText): (r: CreateResult)
    ensures r == Rejected(WalletNotConnected) <==> !connected || address.None? || address.value == ""
    ensures r == Rejected(NoContract) <==> connected && address.Some? && address.value != "" && !hasContract
    ensures r.Write? ==> |r.updated| == |agents| + 1 && r.updated[..|agents|] == agents
    ensures r.Write? ==> r.updated[|agents|] == NewAgent(form, address.value, idClockMs, stampClockMs, fmt)
  {
    if !connected || address.None? || address.value == "" then Rejected(WalletNotConnected)
    else if !hasContract then Rejected(NoContract)
    else Write(agents + [NewAgent(form, address.value, idClockMs, stampClockMs, fmt)])
  }

  /** The stored value decrypts back to the runtime's reading of the text of
      `parseFloat(data) || 0`; text that does not parse, or parses to zero,
      is stored as 0. */
  lemma NewAgentDecrypts(form: Form, address: string, idClockMs: nat, stampClockMs: nat, fmt: NumberText)
    ensures var a := NewAgent(form, address, idClockMs, stampClockMs, fmt);
      Codec.Decrypt(fmt, a.encryptedData) == Some(fmt.parse(fmt.show(OrZero(fmt.parse(form.data)))))
    ensures fmt.parse(form.data).NaN? ==>
      NewAgent(form, address, idClockMs, stampClockMs, fmt).encryptedData == Codec.Encrypt(fmt, 0.0)
  {
    Codec.DecryptInvertsEncrypt(fmt, OrZero(fmt.parse(form.data)));
  }

  /** Agents created at different milliseconds get different ids, whatever
      their forms, owners and timestamps. */
  lemma NewAgentIdsDistinct(
    f: Form, g: Form, owner1: string, owner2: string, m: nat, n: nat,
    stamp1: nat, stamp2: nat, fmt: NumberText)
    requires m != n
    ensures NewAgent(f, owner1, m, stamp1, fmt).id != NewAgent(g, owner2, n, stamp2, fmt).id
  {
    var a, b := NewAgent(f, owner1, m, stamp1, fmt), NewAgent(g, owner2, n, stamp2, fmt);
    if a.id == b.id {
      assert a.id[|"agent-"|..] == IntToDecimal(m);
      assert b.id[|"agent-"|..] == IntToDecimal(n);
      DecimalInjective(m, n);
    }
  }

  // ---------------------------------------------------------------------
  // Loading the list
  // ---------------------------------------------------------------------

  /** The characters `String.prototype.trim` removes: the white space and line
      terminators of ECMAScript (sections 12.2 and 12.3 of ECMA-262). */
  predicate IsJsWhitespace(c: char) {
    c == '\t' || c == '\n' || c as int == 0x0B || c as int == 0x0C || c == '\r' || c == ' '
    || c as int == 0xA0 || c as int == 0x1680 || (0x2000 <= c as int <= 0x200A)
    || c as int == 0x2028 || c as int == 0x2029 || c as int == 0x202F || c as int == 0x205F
    || c as int == 0x3000 || c as int == 0xFEFF
  }

  /** Text made only of white space (the empty text included). */
  predicate IsBlank(s: string) {
    forall i | 0 <= i < |s| :: IsJsWhitespace(s[i])
  }

  function TrimStart(s: string): (r: string)
    ensures |r| > 0 ==> !IsJsWhitespace(r[0])
    decreases |s|
  {
    if |s| > 0 && IsJsWhitespace(s[0]) then TrimStart(s[1..]) else s
  }

  function TrimEnd(s: string): (r: string)
    decreases |s|
  {
    if |s| > 0 && IsJsWhitespace(s[|s| - 1]) then TrimEnd(s[..|s| - 1]) else s
  }

  /** `s.trim()`: white space removed from both ends. */
  function Trim(s: string): string {
    TrimEnd(TrimStart(s))
  }

  lemma {:induction false} TrimStartEmpty(s: string)
    ensures TrimStart(s) == "" <==> IsBlank(s)
    decreases |s|
  {
    if |s| > 0 && IsJsWhitespace(s[0]) {
      TrimStartEmpty(s[1..]);
      assert IsBlank(s[1..]) ==> IsBlank(s) by {
        if IsBlank(s[1..]) {
          forall i | 0 <= i < |s| ensures IsJsWhitespace(s[i]) {
            if i > 0 { assert s[i] == s[1..][i - 1]; }
          }
        }
      }
    }
  }

  /** Trimming the end never removes a first character that is not white
      space. */
  lemma {:induction false} TrimEndKeepsHead(s: string)
    requires |s| > 0 && !IsJsWhitespace(s[0])
    ensures |TrimEnd(s)| > 0
    decreases |s|
  {
    if IsJsWhitespace(s[|s| - 1]) {
      TrimEndKeepsHead(s[..|s| - 1]);
    }
  }

  /** The trimmed text is empty exactly when the text is blank. */
  lemma TrimEmpty(s: string)
    ensures Trim(s) == "" <==> IsBlank(s)
  {
    TrimStartEmpty(s);
    var t := TrimStart(s);
    if |t| > 0 {
      TrimEndKeepsHead(t);
    }
  }

  /** The list read from the stored bytes, failing soft: no bytes, bytes that
      are not UTF-8, blank text and text that `JSON.parse` rejects all give the
      empty list; otherwise the parsed list. */
  function LoadAgents(ser: Serialization, bytes: seq<Base64.Byte>): (r: seq<Agent>)
    ensures |bytes| == 0 ==> r == []
    ensures ser.decodeUtf8(bytes).None? ==> r == []
    ensures ser.decodeUtf8(bytes).Some? && IsBlank(ser.decodeUtf8(bytes).value) ==> r == []
    ensures ser.decodeUtf8(bytes).Some? && ser.parse(ser.decodeUtf8(bytes).value).None? ==> r == []
    ensures |bytes| > 0 && ser.decodeUtf8(bytes).Some? && !IsBlank(ser.decodeUtf8(bytes).value)
      && ser.parse(ser.decodeUtf8(bytes).value).Some?
      ==> r == ser.parse(ser.decodeUtf8(bytes).value).value
    ensures r != [] ==>
      (|bytes| > 0 && ser.decodeUtf8(bytes).Some?
       && !IsBlank(ser.decodeUtf8(bytes).value)
       && ser.parse(ser.decodeUtf8(bytes).value) == Some(r))
  {
    if |bytes| > 0 then
      match ser.decodeUtf8(bytes)
      case None => []
      case Some(text) =>
        TrimEmpty(text);
        if Trim(text) != "" then
          match ser.parse(text)
          case None => []
          case Some(list) => list
        else []
    else []
  }

  /** What one fetch of the blob yields: no contract handle (`loadData`
      returns early), a failed call (the outer `catch`), or the bytes. */
  datatype Fetch = NoContractHandle | FetchFailed | Fetched(bytes: seq<Base64.Byte>)

  /** `loadData`'s effect on the list held by the component: replaced by the
      fail-soft reading of fetched bytes, kept as it is otherwise. */
  function Reload(ser: Serialization, current: seq<Agent>, fetch: Fetch): (r: seq<Agent>)
    ensures !fetch.Fetched? ==> r == current
  {
    match fetch
    case Fetched(bytes) => LoadAgents(ser, bytes)
    case _ => current
  }

  /** The bytes `createAgent` writes for a list. */
  function Stored(ser: Serialization, agents: seq<Agent>): seq<Base64.Byte> {
    ser.encodeUtf8(ser.stringify(agents))
  }

  /** Reading back what was stored gives the list, provided the libraries
      invert each other on it and the JSON text is not blank (JSON text for a
      list starts with `[`). */
  lemma LoadInvertsStore(ser: Serialization, agents: seq<Agent>)
    requires ser.parse(ser.stringify(agents)) == Some(agents)
    requires ser.decodeUtf8(ser.encodeUtf8(ser.stringify(agents))) == Some(ser.stringify(agents))
    requires |ser.stringify(agents)| > 0 && ser.stringify(agents)[0] == '['
    requires |ser.encodeUtf8(ser.stringify(agents))| > 0
    ensures LoadAgents(ser, Stored(ser, agents)) == agents
  {
    var text := ser.stringify(agents);
    assert !IsJsWhitespace(text[0]);
    TrimEmpty(text);
  }

  /** A successful create followed by a successful reload leaves the component
      holding the old list with the new record at the end. */
  lemma CreateThenReload(
    ser: Serialization, address: string, agents: seq<Agent>, form: Form,
    idClockMs: nat, stampClockMs: nat, fmt: NumberText)
    requires address != ""
    requires var u := agents + [NewAgent(form, address, idClockMs, stampClockMs, fmt)];
      ser.parse(ser.stringify(u)) == Some(u)
      && ser.decodeUtf8(ser.encodeUtf8(ser.stringify(u))) == Some(ser.stringify(u))
      && |ser.stringify(u)| > 0 && ser.stringify(u)[0] == '['
      && |ser.encodeUtf8(ser.stringify(u))| > 0
    ensures var r := CreateAgent(true, Some(address), true, agents, form, idClockMs, stampClockMs, fmt);
      r.Write?
      && Reload(ser, agents, Fetched(Stored(ser, r.updated)))
         == agents + [NewAgent(form, address, idClockMs, stampClockMs, fmt)]
  {
    LoadInvertsStore(ser, agents + [NewAgent(form, address, idClockMs, stampClockMs, fmt)]);
  }
}
