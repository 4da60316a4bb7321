/** The session parameters and the challenge message a wallet signs before a
    stored value is revealed: five `key:value` lines in a fixed order, each
    value written verbatim. */
module Challenge {
  import opened Wrappers
  import opened Numbers

  /** The ambient signature parameters, set once when the component mounts. */
  datatype SessionParams = SessionParams(
    publicKey: string,
    contractAddress: string,
    chainId: int,
    startTimestamp: int,
    durationDays: int)

  /** The line keys of the message, in order. */
  const Keys: seq<string> := ["publickey:", "contractAddresses:", "contractsChainId:", "startTimestamp:", "durationDays:"]

  const DefaultDurationDays: int := 30

  predicate NoNewline(s: string) {
    forall i | 0 <= i < |s| :: s[i] != '\n'
  }

  /** Lines joined by line feeds, `lines.join("\n")`. */
  function JoinLines(lines: seq<string>): string
    requires |lines| >= 1
    decreases |lines|
  {
    if |lines| == 1 then lines[0] else lines[0] + "\n" + JoinLines(lines[1..])
  }

  /** The five lines of the challenge: each key followed by its value, the
      numbers in decimal. */
  function MessageLines(p: SessionParams): seq<string> {
    [ Keys[0] + p.publicKey,
      Keys[1] + p.contractAddress,
      Keys[2] + IntToDecimal(p.chainId),
      Keys[3] + IntToDecimal(p.startTimestamp),
      Keys[4] + IntToDecimal(p.durationDays) ]
  }

  /** The challenge text: the same characters as the template literal
      `publickey:${publicKey}\ncontractAddresses:${contractAddress}\n...`. */
  function Message(p: SessionParams): string {
    JoinLines(MessageLines(p))
  }

  /** The joined lines are character for character the template literal of
      the source. */
  lemma MessageIsTemplate(p: SessionParams)
    ensures Message(p) ==
      Keys[0] + p.publicKey
      + "\n" + Keys[1] + p.contractAddress
      + "\n" + Keys[2] + IntToDecimal(p.chainId)
      + "\n" + Keys[3] + IntToDecimal(p.startTimestamp)
      + "\n" + Keys[4] + IntToDecimal(p.durationDays)
  {
    var ls := MessageLines(p);
    JoinFive(ls);
    var nl := "\n";
    var x1 := Keys[0] + p.publicKey;
    Regroup(x1, nl, Keys[1], p.contractAddress);
    var x2 := x1 + nl + Keys[1] + p.contractAddress;
    Regroup(x2, nl, Keys[2], IntToDecimal(p.chainId));
    var x3 := x2 + nl + Keys[2] + IntToDecimal(p.chainId);
    Regroup(x3, nl, Keys[3], IntToDecimal(p.startTimestamp));
    var x4 := x3 + nl + Keys[3] + IntToDecimal(p.startTimestamp);
    Regroup(x4, nl, Keys[4], IntToDecimal(p.durationDays));
    Flatten(ls[0], ls[1], ls[2], ls[3], ls[4], nl);
  }

  /** Five joined lines, written out with the line feeds between them. */
  lemma JoinFive(ls: seq<string>)
    requires |ls| == 5
    ensures JoinLines(ls) == ls[0] + "\n" + (ls[1] + "\n" + (ls[2] + "\n" + (ls[3] + "\n" + ls[4])))
  {
    assert ls[1..][1..] == ls[2..];
    assert ls[2..][1..] == ls[3..];
    assert ls[3..][1..] == ls[4..];
    assert JoinLines(ls[4..]) == ls[4];
    assert JoinLines(ls[3..]) == ls[3] + "\n" + JoinLines(ls[4..]);
    assert JoinLines(ls[2..]) == ls[2] + "\n" + JoinLines(ls[3..]);
    assert JoinLines(ls[1..]) == ls[1] + "\n" + JoinLines(ls[2..]);
  }

  /** Separated pieces read the same however the concatenation is grouped. */
  lemma Flatten(a: string, b: string, c: string, d: string, e: string, sep: string)
    ensures a + sep + (b + sep + (c + sep + (d + sep + e))) == a + sep + b + sep + c + sep + d + sep + e
  {
  }

  /** A line `key + value` appended after a separator. */
  lemma Regroup(prefix: string, sep: string, key: string, value: string)
    ensures prefix + sep + (key + value) == prefix + sep + key + value
  {
  }

  /** `s.split("\n")`: the pieces between line feeds, in order, empty pieces
      included; a string without a line feed is one piece. */
  function Split(s: string): (r: seq<string>)
    ensures |r| >= 1
    ensures forall i | 0 <= i < |r| :: NoNewline(r[i])
    decreases |s|
  {
    if |s| == 0 then [""]
    else if s[0] == '\n' then [""] + Split(s[1..])
    else
      var rest := Split(s[1..]);
      [[s[0]] + rest[0]] + rest[1..]
  }

  /** If `line` starts with `key`, what follows it. */
  function AfterKey(key: string, line: string): (r: Option<string>)
    ensures r.Some? <==> |key| <= |line| && line[..|key|] == key
    ensures r.Some? ==> line == key + r.value
  {
    if |key| <= |line| && line[..|key|] == key then Some(line[|key|..]) else None
  }

  /** Reads a message back into its parameters; `None` unless it has five lines
      with the expected keys in order and decimal numbers in the last three. */
  function ParseMessage(m: string): Option<SessionParams> {
    var lines := Split(m);
    if |lines| != 5 then None
    else
      var publicKey :- AfterKey(Keys[0], lines[0]);
      var contractAddress :- AfterKey(Keys[1], lines[1]);
      var chainText :- AfterKey(Keys[2], lines[2]);
      var startText :- AfterKey(Keys[3], lines[3]);
      var durationText :- AfterKey(Keys[4], lines[4]);
      var chainId :- ParseDecimal(chainText);
      var startTimestamp :- ParseDecimal(startText);
      var durationDays :- ParseDecimal(durationText);
      Some(SessionParams(publicKey, contractAddress, chainId, startTimestamp, durationDays))
  }

  lemma {:induction false} SplitSingle(a: string)
    requires NoNewline(a)
    ensures Split(a) == [a]
    decreases |a|
  {
    if |a| > 0 {
      SplitSingle(a[1..]);
      assert a == [a[0]] + a[1..];
    }
  }

  /** A line feed after a line-feed-free prefix ends exactly the first piece. */
  lemma {:induction false} SplitAtNewline(a: string, b: string)
    requires NoNewline(a)
    ensures Split(a + "\n" + b) == [a] + Split(b)
    decreases |a|
  {
    var s := a + "\n" + b;
    if |a| == 0 {
      assert s == "\n" + b;
      assert s[1..] == b;
    } else {
      assert s[1..] == a[1..] + "\n" + b;
      SplitAtNewline(a[1..], b);
      assert a == [a[0]] + a[1..];
    }
  }

  lemma DecimalHasNoNewline(n: int)
    ensures NoNewline(IntToDecimal(n))
  {
    var r := IntToDecimal(n);
    forall i | 0 <= i < |r|
      ensures r[i] != '\n'
    {
      if i > 0 {
        assert IsDigit(r[i]);
      }
    }
  }

  /** Splitting lines joined by line feeds gives the lines back, provided no
      line holds a line feed itself. */
  lemma {:induction false} SplitJoinLines(lines: seq<string>)
    requires |lines| >= 1
    requires forall i | 0 <= i < |lines| :: NoNewline(lines[i])
    ensures Split(JoinLines(lines)) == lines
    decreases |lines|
  {
    if |lines| == 1 {
      SplitSingle(lines[0]);
    } else {
      SplitJoinLines(lines[1..]);
      SplitAtNewline(lines[0], JoinLines(lines[1..]));
      assert lines == [lines[0]] + lines[1..];
    }
  }

  /** The message has exactly five lines; line `i` is key `i` followed by the
      corresponding parameter, verbatim. */
  lemma MessageHasFiveLines(p: SessionParams)
    requires NoNewline(p.publicKey) && NoNewline(p.contractAddress)
    ensures Split(Message(p)) == [
      Keys[0] + p.publicKey,
      Keys[1] + p.contractAddress,
      Keys[2] + IntToDecimal(p.chainId),
      Keys[3] + IntToDecimal(p.startTimestamp),
      Keys[4] + IntToDecimal(p.durationDays)]
  {
    var lines := MessageLines(p);
    DecimalHasNoNewline(p.chainId);
    DecimalHasNoNewline(p.startTimestamp);
    DecimalHasNoNewline(p.durationDays);
    assert NoNewline(Keys[0]) && NoNewline(Keys[1]) && NoNewline(Keys[2]) && NoNewline(Keys[3]) && NoNewline(Keys[4]);
    ConcatNoNewline(Keys[0], p.publicKey);
    ConcatNoNewline(Keys[1], p.contractAddress);
    ConcatNoNewline(Keys[2], IntToDecimal(p.chainId));
    ConcatNoNewline(Keys[3], IntToDecimal(p.startTimestamp));
    ConcatNoNewline(Keys[4], IntToDecimal(p.durationDays));
    SplitJoinLines(lines);
  }

  lemma ConcatNoNewline(a: string, b: string)
    requires NoNewline(a) && NoNewline(b)
    ensures NoNewline(a + b)
  {
    forall i | 0 <= i < |a + b|
      ensures (a + b)[i] != '\n'
    {
      if i >= |a| {
        assert (a + b)[i] == b[i - |a|];
      }
    }
  }

  /** For line-feed-free text fields, the message can be read back into
      exactly the parameters it was built from. */
  lemma ParseMessageInvertsMessage(p: SessionParams)
    requires NoNewline(p.publicKey) && NoNewline(p.contractAddress)
    ensures ParseMessage(Message(p)) == Some(p)
  {
    MessageHasFiveLines(p);
    assert (Keys[0] + p.publicKey)[|Keys[0]|..] == p.publicKey;
    assert (Keys[1] + p.contractAddress)[|Keys[1]|..] == p.contractAddress;
    assert (Keys[2] + IntToDecimal(p.chainId))[|Keys[2]|..] == IntToDecimal(p.chainId);
    assert (Keys[3] + IntToDecimal(p.startTimestamp))[|Keys[3]|..] == IntToDecimal(p.startTimestamp);
    assert (Keys[4] + IntToDecimal(p.durationDays))[|Keys[4]|..] == IntToDecimal(p.durationDays);
    DecimalRoundTrip(p.chainId);
    DecimalRoundTrip(p.startTimestamp);
    DecimalRoundTrip(p.durationDays);
  }

  /** Changing any parameter changes the signed text (text fields without line
      feeds): the message determines the whole session. */
  lemma MessageInjective(p: SessionParams, q: SessionParams)
    requires NoNewline(p.publicKey) && NoNewline(p.contractAddress)
    requires NoNewline(q.publicKey) && NoNewline(q.contractAddress)
    ensures Message(p) == Message(q) <==> p == q
  {
    ParseMessageInvertsMessage(p);
    ParseMessageInvertsMessage(q);
  }

  // ---------------------------------------------------------------------
  // Session parameters
  // ---------------------------------------------------------------------

  const KeyDigits: nat := 2000

  predicate IsLowerHex(c: char) {
    ('0' <= c <= '9') || ('a' <= c <= 'f')
  }

  /** `d.toString(16)` for a digit value below 16. */
  function HexDigit(d: int): (c: char)
    requires 0 <= d < 16
    ensures IsLowerHex(c)
  {
    if d < 10 then ('0' as int + d) as char else ('a' as int + (d - 10)) as char
  }

  function HexValue(c: char): (d: int)
    requires IsLowerHex(c)
    ensures 0 <= d < 16 && HexDigit(d) == c
  {
    if c <= '9' then c as int - '0' as int else c as int - 'a' as int + 10
  }

  /** `Math.floor(r * 16)` for a draw of `Math.random`, which lies in [0, 1). */
  function Nibble(r: real): (d: int)
    requires 0.0 <= r < 1.0
    ensures 0 <= d < 16
  {
    (r * 16.0).Floor
  }

  /** `generatePublicKey`: "0x" and one lower-case hex digit per random draw.
      The draws of `Math.random` are passed in. */
  function GeneratePublicKey(draws: seq<real>): (key: string)
    requires |draws| == KeyDigits
    requires forall i | 0 <= i < |draws| :: 0.0 <= draws[i] < 1.0
    ensures |key| == 2 + KeyDigits && key[..2] == "0x"
    ensures forall i | 2 <= i < |key| :: IsLowerHex(key[i]) && HexValue(key[i]) == Nibble(draws[i - 2])
    ensures NoNewline(key)
  {
    "0x" + seq(KeyDigits, i requires 0 <= i < KeyDigits => HexDigit(Nibble(draws[i])))
  }

  /** The session before `initSignatureParams` has set anything: the initial
      values of the component's state. */
  const InitialSession: SessionParams := SessionParams("", "", 0, 0, DefaultDurationDays)

  /** How the contract lookup of `initSignatureParams` goes: the lookup
      throws, there is no contract handle, or there is one whose address is
      read (`None`: reading the address throws). */
  datatype ContractLookup = LookupFails | NoHandle | Handle(address: Option<string>)

  /** How the chain id lookup goes: no injected provider, the `eth_chainId`
      request throws, or the chain id it reports. */
  datatype ChainLookup = NoProvider | ChainRequestFails | ChainReply(id: int)

  /** Whether the contract lookup lets `initSignatureParams` go on to the
      chain id. */
  predicate ContractSettles(contract: ContractLookup) {
    !contract.LookupFails? && contract != Handle(None)
  }

  /** Whether `initSignatureParams` runs to its end; a throw stops it and the
      rest of the state keeps its initial value. */
  predicate InitCompletes(contract: ContractLookup, chain: ChainLookup) {
    ContractSettles(contract) && !chain.ChainRequestFails?
  }

  /** What `initSignatureParams` settles on. The contract address is set when
      a handle exists and its address is read; the chain id when a provider
      answers; then, only if nothing threw, the current time in whole
      seconds, 30 days, and a fresh key. Every field not reached keeps its
      initial value. */
  function InitSession(contract: ContractLookup, chain: ChainLookup, nowMs: nat, draws: seq<real>): (p: SessionParams)
    requires |draws| == KeyDigits
    requires forall i | 0 <= i < |draws| :: 0.0 <= draws[i] < 1.0
    ensures p.contractAddress == (if contract.Handle? && contract.address.Some? then contract.address.value else "")
    ensures p.chainId == (if ContractSettles(contract) && chain.ChainReply? then chain.id else 0)
    ensures p.durationDays == DefaultDurationDays
    ensures InitCompletes(contract, chain) ==>
      p.startTimestamp * 1000 <= nowMs < (p.startTimestamp + 1) * 1000
      && p.publicKey == GeneratePublicKey(draws)
    ensures !InitCompletes(contract, chain) ==> p.startTimestamp == 0 && p.publicKey == ""
  {
    if !ContractSettles(contract) then InitialSession
    else
      var address := if contract.Handle? then contract.address.value else "";
      match chain
      case ChainRequestFails => InitialSession.(contractAddress := address)
      case NoProvider => SessionParams(GeneratePublicKey(draws), address, 0, nowMs / 1000, DefaultDurationDays)
      case ChainReply(id) => SessionParams(GeneratePublicKey(draws), address, id, nowMs / 1000, DefaultDurationDays)
  }

  /** The key tells whether initialisation ran to its end: it is empty exactly
      when a lookup threw, and then the challenge carries an empty key and a
      start of 0. */
  lemma InitSessionKeyShowsCompletion(contract: ContractLookup, chain: ChainLookup, nowMs: nat, draws: seq<real>)
    requires |draws| == KeyDigits
    requires forall i | 0 <= i < |draws| :: 0.0 <= draws[i] < 1.0
    ensures InitSession(contract, chain, nowMs, draws).publicKey == "" <==> !InitCompletes(contract, chain)
    ensures !InitCompletes(contract, chain) ==>
      MessageLines(InitSession(contract, chain, nowMs, draws))[0] == Keys[0]
      && MessageLines(InitSession(contract, chain, nowMs, draws))[3] == Keys[3] + "0"
  {
    var p := InitSession(contract, chain, nowMs, draws);
    if !InitCompletes(contract, chain) {
      assert Keys[0] + "" == Keys[0];
      assert IntToDecimal(0) == "0";
    }
  }
}
