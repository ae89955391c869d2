/**
 * A block of the ledger: a hex-encoded JSON body plus the metadata the
 * ledger writes when it appends the block.
 */
module Blocks {
  import opened JsRuntime
  import opened HexEncoding

  /**
   * The `previousHash` property: not yet an own property of the block, or
   * assigned from the ledger's latest-block lookup, which yields `undefined`.
   */
  datatype PrevHash = Unset | Undefined

  /** Every property a block can carry, as a value. */
  datatype BlockFields = BlockFields(
    hash: Nullable<string>,
    height: int,
    body: string,
    time: int,
    previousBlockHash: Nullable<string>,
    previousHash: PrevHash,
    timestamp: Option<string>)

  /** The properties of a newly constructed block whose body is `body`. */
  function FreshFields(body: string): BlockFields {
    BlockFields(Null, 0, body, 0, Null, Unset, None)
  }

  function NullableString(v: Nullable<string>): Json {
    match v
    case Null => JNull
    case Val(s) => JString(s)
  }

  /**
   * The block as JSON.stringify sees it: own properties in insertion order
   * (the five set by the constructor, then `previousHash`, then `timestamp`),
   * leaving out those that are absent or hold `undefined`. The only value
   * `previousHash` ever receives is `undefined`, so it never appears here and
   * the content hash never covers a link.
   */
  function ToJson(f: BlockFields): (j: Json)
    ensures j.JObject?
    ensures MemberNames(j.members) ==
              ["hash", "height", "body", "time", "previousBlockHash"]
              + (if f.timestamp.Some? then ["timestamp"] else [])
    ensures j.members[0].1 == NullableString(f.hash)
  {
    JObject(
      [("hash", NullableString(f.hash)),
       ("height", JNumber(f.height as real)),
       ("body", JString(f.body)),
       ("time", JNumber(f.time as real)),
       ("previousBlockHash", NullableString(f.previousBlockHash))]
      + (match f.timestamp
         case None => []
         case Some(t) => [("timestamp", JString(t))]))
  }

  /** The property names of an object, in order. */
  function MemberNames(members: seq<(string, Json)>): seq<string> {
    seq(|members|, k requires 0 <= k < |members| => members[k].0)
  }

  /** What getBData yields: a thrown parse error, `undefined`, or the parsed data. */
  datatype BData = ParseFailed | NoData | Parsed(data: Json)

  class Block {
    var hash: Nullable<string>
    var height: int
    // body, time and previousBlockHash are set by the constructor and never reassigned
    const body: string
    const time: int
    const previousBlockHash: Nullable<string>
    // written only when the ledger appends the block
    var previousHash: PrevHash
    var timestamp: Option<string>

    /** Holds for every block: the body is hex text and no code sets previousBlockHash. */
    ghost predicate Valid() {
      IsHexText(body) && previousBlockHash == Null
    }

    function State(): BlockFields
      reads this
    {
      BlockFields(hash, height, body, time, previousBlockHash, previousHash, timestamp)
    }

    /** A new block stores the hex encoding of JSON.stringify(data); everything else is empty. */
    constructor (data: Json, stringify: Json -> string)
      ensures Valid()
      ensures State() == FreshFields(EncodeBody(stringify(data)))
      ensures hash == Null && height == 0 && time == 0 && previousBlockHash == Null
    {
      hash := Null;
      height := 0;
      body := EncodeBody(stringify(data));
      time := 0;
      previousBlockHash := Null;
      previousHash := Unset;
      timestamp := None;
    }

    /** hex2ascii applied to the body: the text getBData hands to JSON.parse. */
    function BodyText(): (text: string)
      requires IsHexText(body)
    {
      HexToAscii(body)
    }

    /**
     * getBData decodes and parses the body first, so a malformed body fails
     * whatever previousBlockHash holds; only then does the guard decide
     * between the data and nothing.
     */
    function GetBData(parse: string -> Option<Json>): (r: BData)
      requires IsHexText(body)
      ensures r == ParseFailed <==> parse(BodyText()).None?
      ensures r.Parsed? <==> parse(BodyText()).Some? && previousBlockHash != Null
      ensures r.Parsed? ==> parse(BodyText()) == Some(r.data)
    {
      match parse(HexToAscii(body))
      case None => ParseFailed
      case Some(v) => if previousBlockHash != Null then Parsed(v) else NoData
    }

    /**
     * validate: None when getBData throws (the promise rejects), otherwise
     * whether the stored hash equals SHA-256 of the serialised getBData() result.
     */
    function Validate(lib: Libraries): (r: Option<bool>)
      reads this
      requires IsHexText(body)
      ensures r.None? <==> lib.parse(BodyText()).None?
      ensures r == Some(true) ==> hash.Val?
      ensures lib.parse(BodyText()).Some? && previousBlockHash == Null ==>
                r == Some(hash == Val(lib.sha256OfUndefined))
      ensures lib.parse(BodyText()).Some? && previousBlockHash != Null ==>
                r == Some(hash == Val(lib.sha256(lib.stringify(lib.parse(BodyText()).value))))
    {
      match GetBData(lib.parse)
      case ParseFailed => None
      case NoData => Some(hash == Val(lib.sha256OfUndefined))
      case Parsed(v) => Some(hash == Val(lib.sha256(lib.stringify(v))))
    }
  }

  /**
   * Decoding undoes the constructor's encoding: a block built from `data`
   * whose JSON text is ASCII hands exactly that text to JSON.parse, so when
   * parsing inverts stringify getBData yields `data` or, behind the guard,
   * nothing. (JSON.stringify writes U+0000 as an escape, so its text never
   * holds the one character hex2ascii drops.)
   */
  lemma DecodeConstructed(b: Block, data: Json, lib: Libraries)
    requires b.body == EncodeBody(lib.stringify(data))
    requires IsAscii(lib.stringify(data)) && NulFree(lib.stringify(data))
    requires lib.parse(lib.stringify(data)) == Some(data)
    ensures b.BodyText() == lib.stringify(data)
    ensures b.GetBData(lib.parse) == if b.previousBlockHash != Null then Parsed(data) else NoData
  {
    BodyRoundTrip(lib.stringify(data));
  }

  /**
   * Since no code assigns previousBlockHash, getBData never yields data, and
   * validate only ever compares the stored hash with SHA-256 of `undefined`.
   */
  lemma ValidateOnValidBlock(b: Block, lib: Libraries)
    requires b.Valid()
    ensures !b.GetBData(lib.parse).Parsed?
    ensures b.Validate(lib) == Some(true) <==>
              lib.parse(b.BodyText()).Some? && b.hash == Val(lib.sha256OfUndefined)
  {
  }

  /**
   * validate reads only hash, body and previousBlockHash: changing height,
   * time, timestamp or previousHash goes undetected.
   */
  lemma ValidateIgnoresMetadata(a: Block, b: Block, lib: Libraries)
    requires IsHexText(a.body)
    requires a.hash == b.hash && a.body == b.body && a.previousBlockHash == b.previousBlockHash
    ensures a.Validate(lib) == b.Validate(lib)
  {
  }
}
