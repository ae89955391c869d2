/**
 * The ledger: an append-only sequence of blocks and a height counter. Every
 * call is synchronous here; the clock reading is a parameter.
 */
module Ledger {
  import opened JsRuntime
  import opened HexEncoding
  import opened Blocks

  /** The data of the block the ledger creates for itself. */
  const GenesisData: Json := JString("Genesis Block")

  // ---- timestamps: new Date().getTime().toString().slice(0, -3) ----

  function DigitChar(d: int): char
    requires 0 <= d < 10
  {
    ('0' as int + d) as char
  }

  /** Decimal digits of a natural number, without leading zeros. */
  function NatToString(n: nat): (s: string)
    ensures |s| >= 1
  {
    if n < 10 then [DigitChar(n)] else NatToString(n / 10) + [DigitChar(n % 10)]
  }

  /** Number.prototype.toString of an integer value. */
  function IntToString(n: int): string {
    if n < 0 then "-" + NatToString(-n) else NatToString(n)
  }

  /** String.prototype.slice(0, -3). */
  function DropLastThree(s: string): string {
    if |s| <= 3 then "" else s[..|s| - 3]
  }

  /**
   * The values getTime() can return: a Date holds at most 8.64e15 ms either
   * side of the epoch, where toString prints plain decimal digits.
   */
  predicate IsClockValue(ms: int) {
    -8_640_000_000_000_000 <= ms <= 8_640_000_000_000_000
  }

  /** The timestamp a block receives when the clock reads `ms` milliseconds. */
  function Timestamp(ms: int): (r: string)
    requires IsClockValue(ms)
    ensures r <= IntToString(ms)
    ensures |r| == if |IntToString(ms)| <= 3 then 0 else |IntToString(ms)| - 3
  {
    DropLastThree(IntToString(ms))
  }

  /** The last three digits of a number of 1000 or more are those of its remainder by 1000. */
  lemma {:induction false} ThreeDigitsShift(n: nat)
    requires n >= 1000
    ensures |NatToString(n)| == |NatToString(n / 1000)| + 3
    ensures NatToString(n)[..|NatToString(n)| - 3] == NatToString(n / 1000)
  {
    assert n / 10 / 10 / 10 == n / 1000;
    var a := NatToString(n / 1000);
    var b := NatToString(n / 100);
    var c := NatToString(n / 10);
    assert n / 10 >= 100 && n / 100 >= 10;
    assert n / 10 / 10 == n / 100;
    assert b == a + [DigitChar((n / 100) % 10)];
    assert c == b + [DigitChar((n / 10) % 10)];
    assert NatToString(n) == c + [DigitChar(n % 10)];
    assert NatToString(n) == a + [DigitChar((n / 100) % 10), DigitChar((n / 10) % 10), DigitChar(n % 10)];
  }

  lemma {:induction false} ShortNumber(n: nat)
    requires n < 1000
    ensures |NatToString(n)| <= 3
    ensures n >= 100 ==> |NatToString(n)| == 3
  {
    if n >= 10 {
      var m := n / 10;
      assert |NatToString(n)| == |NatToString(m)| + 1;
      if m >= 10 {
        assert m / 10 < 10;
        assert |NatToString(m)| == |NatToString(m / 10)| + 1;
      }
    }
  }

  /**
   * The timestamp is the whole number of seconds for clock values of 1000 or
   * more (and, with a sign, for -1000 or less, truncated toward zero); it is
   * empty or a lone "-" for clock values in between.
   */
  lemma TimestampIsSeconds(ms: int)
    requires IsClockValue(ms)
    ensures ms >= 1000 ==> Timestamp(ms) == NatToString(ms / 1000)
    ensures 0 <= ms < 1000 ==> Timestamp(ms) == ""
    ensures -1000 < ms < 0 ==> Timestamp(ms) == if ms <= -100 then "-" else ""
    ensures ms <= -1000 ==> Timestamp(ms) == "-" + NatToString((-ms) / 1000)
  {
    if ms >= 1000 {
      ThreeDigitsShift(ms);
    } else if ms >= 0 {
      ShortNumber(ms);
    } else if ms > -1000 {
      ShortNumber(-ms);
    } else {
      ThreeDigitsShift(-ms);
      var s := NatToString(-ms);
      assert ("-" + s)[..|"-" + s| - 3] == "-" + s[..|s| - 3];
    }
  }

  // ---- appending ----

  /**
   * A block's properties after _addBlock, given those it had before and the
   * ledger height before the call. The hash is taken once height, timestamp
   * and link are assigned, over the block as it then is, with its earlier
   * hash value still in place.
   */
  function Appended(f: BlockFields, preHeight: int, nowMs: int, lib: Libraries): (r: BlockFields)
    requires IsClockValue(nowMs)
    ensures r.height == preHeight
    ensures r.timestamp == Some(Timestamp(nowMs))
    ensures r.previousHash == if preHeight >= 0 then Undefined else f.previousHash
    ensures r.body == f.body && r.time == f.time && r.previousBlockHash == f.previousBlockHash
    ensures r.hash == Val(lib.sha256(lib.stringify(ToJson(r.(hash := f.hash)))))
  {
    var linked := if preHeight >= 0 then f.(previousHash := Undefined) else f;
    var placed := linked.(height := preHeight, timestamp := Some(Timestamp(nowMs)));
    placed.(hash := Val(lib.sha256(lib.stringify(ToJson(placed)))))
  }

  /** What holds of the block stored at index i. */
  ghost predicate Placed(b: Block, i: int)
    reads b
  {
    b.Valid() && b.height == i - 1 && b.hash.Val? && b.timestamp.Some?
    && b.previousHash == (if i == 0 then Unset else Undefined)
  }

  // ---- lookup ----

  /** The index of the first block whose height property equals h, if any. */
  function FirstAtHeight(blocks: seq<Block>, h: int): (r: Option<nat>)
    reads blocks
    ensures r.Some? ==> r.value < |blocks| && blocks[r.value].height == h
    ensures r.Some? ==> forall j :: 0 <= j < r.value ==> blocks[j].height != h
    ensures r.None? <==> forall j :: 0 <= j < |blocks| ==> blocks[j].height != h
    decreases |blocks|
  {
    if blocks == [] then None
    else if blocks[0].height == h then Some(0)
    else match FirstAtHeight(blocks[1..], h)
      case None => None
      case Some(i) => Some(i + 1)
  }

  class Blockchain {
    const lib: Libraries
    var chain: seq<Block>
    var height: int

    /** The counter is the index of the last block, and the block at index i carries height i - 1. */
    ghost predicate Valid()
      reads this, chain
    {
      height == |chain| - 1
      && forall i :: 0 <= i < |chain| ==> Placed(chain[i], i)
    }

    /** The ledger starts empty and appends the genesis block during construction. */
    constructor (lib: Libraries, nowMs: int)
      requires IsClockValue(nowMs)
      ensures Valid() && this.lib == lib
      ensures |chain| == 1 && height == 0 && fresh(chain[0])
      ensures chain[0].State() == Appended(FreshFields(EncodeBody(lib.stringify(GenesisData))), -1, nowMs, lib)
    {
      this.lib := lib;
      chain := [];
      height := -1;
      new;
      InitializeChain(nowMs);
    }

    /** Adds the genesis block when the counter says the chain is empty, and does nothing otherwise. */
    method InitializeChain(nowMs: int)
      requires Valid() && IsClockValue(nowMs)
      modifies this
      ensures Valid()
      ensures old(height) == -1 ==>
                |chain| == 1 && height == 0 && fresh(chain[0])
                && chain[0].State() == Appended(FreshFields(EncodeBody(lib.stringify(GenesisData))), -1, nowMs, lib)
      ensures old(height) != -1 ==> chain == old(chain) && height == old(height)
    {
      if height == -1 {
        var block := new Block(GenesisData, lib.stringify);
        var _ := AddBlock(block, nowMs);
      }
    }

    /**
     * _addBlock: the block takes the height from before the call, the
     * timestamp of the clock reading, an `undefined` link unless the chain
     * is empty, and a hash over its properties at that point; it then becomes
     * the last element, and every block stored earlier stays as it was. The
     * counter grows by exactly one.
     */
    method AddBlock(block: Block, nowMs: int) returns (added: Block)
      requires Valid() && block.Valid() && block !in chain && IsClockValue(nowMs)
      requires height == -1 ==> block.previousHash == Unset
      modifies this, block
      ensures Valid()
      ensures added == block && chain == old(chain) + [block]
      ensures height == old(height) + 1
      ensures block.State() == Appended(old(block.State()), old(height), nowMs, lib)
      ensures forall i :: 0 <= i < |old(chain)| ==> chain[i].State() == old(chain[i].State())
    {
      if height >= 0 {
        // getLatestBlock() resolves to a Promise, and a Promise has no `hash` property
        block.previousHash := Undefined;
      }
      // block.height = self.height++
      var before := height;
      height := height + 1;
      block.height := before;
      block.timestamp := Some(Timestamp(nowMs));
      block.hash := Val(lib.sha256(lib.stringify(ToJson(block.State()))));
      chain := chain + [block];
      // self.height = self.height++ stores back the value read before the increment
      var read := height;
      height := height + 1;
      height := read;
      added := block;
    }

    /** getChainHeight: the counter, which is one less than the number of blocks. */
    function GetChainHeight(): (r: int)
      reads this, chain
      ensures Valid() ==> r == |chain| - 1
    {
      height
    }

    /**
     * getBlockByHeight: the first block whose height property is h, or null.
     * On a valid ledger that is the block at index h + 1 for -1 <= h < height,
     * so the current height itself finds nothing.
     */
    function GetBlockByHeight(h: int): (r: Option<Block>)
      reads this, chain
      ensures r.Some? ==> r.value in chain && r.value.height == h
      ensures r.None? <==> forall i :: 0 <= i < |chain| ==> chain[i].height != h
      ensures FirstAtHeight(chain, h).Some? ==> r == Some(chain[FirstAtHeight(chain, h).value])
      ensures Valid() ==> r == if -1 <= h < height then Some(chain[h + 1]) else None
    {
      match FirstAtHeight(chain, h)
      case None => None
      case Some(i) => Some(chain[i])
    }
  }

  /** The most recent block is never found by the current height. */
  lemma LookupCurrentHeight(c: Blockchain)
    requires c.Valid()
    ensures c.GetBlockByHeight(c.GetChainHeight()) == None
    ensures c.height >= 0 ==> c.GetBlockByHeight(c.height - 1) == Some(c.chain[|c.chain| - 1])
  {
  }

  /** Only blocks appended to a non-empty chain receive a link; the genesis block never does. */
  lemma GenesisNeverLinked(c: Blockchain)
    requires c.Valid() && |c.chain| > 0
    ensures c.chain[0].previousHash == Unset && c.chain[0].previousBlockHash == Null
    ensures forall i :: 0 < i < |c.chain| ==> c.chain[i].previousHash == Undefined
  {
    assert Placed(c.chain[0], 0);
  }

  /**
   * Every stored block hands validate nothing to hash, so it succeeds only
   * when the stored hash happens to equal SHA-256 of `undefined`.
   */
  lemma StoredBlockValidation(c: Blockchain, i: int)
    requires c.Valid() && 0 <= i < |c.chain|
    ensures c.chain[i].Validate(c.lib) == Some(true) <==>
              c.lib.parse(c.chain[i].BodyText()).Some? && c.chain[i].hash == Val(c.lib.sha256OfUndefined)
  {
    ValidateOnValidBlock(c.chain[i], c.lib);
  }
}
