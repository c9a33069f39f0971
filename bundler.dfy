/** Transaction building and the simulate-then-submit bundle protocol of
    `Bundler` (src/bundler.js). Signing, ABI encoding and the relay are
    kept as abstract values. */
module Bundler {
  import opened Common

  /** One hop of an order: the router to swap on and the token pair. */
  datatype Path = Path(router: Address, tokenIn: Address, tokenOut: Address) {
    /** `toList()`: router, tokenIn, tokenOut. */
    function ToList(): (l: seq<Address>)
      ensures |l| == 3 && l[0] == router && l[1] == tokenIn && l[2] == tokenOut
    {
      [router, tokenIn, tokenOut]
    }
  }

  /** The `Flashloan` enum. */
  datatype Flashloan = NotUsed | Balancer | UniswapV2 {
    /** Its numeric value: NotUsed = 0, Balancer = 1, UniswapV2 = 2. */
    function Code(): (c: nat)
      ensures c < 3
    {
      match this
      case NotUsed => 0
      case Balancer => 1
      case UniswapV2 => 2
    }
  }

  /** The three variants carry distinct codes, 0, 1 and 2. */
  lemma FlashloanCodes(a: Flashloan, b: Flashloan)
    ensures a.Code() == b.Code() <==> a == b
    ensures NotUsed.Code() == 0 && Balancer.Code() == 1 && UniswapV2.Code() == 2
  {
  }

  /** An argument handed to the ABI encoder. */
  datatype AbiValue = Uint(n: int) | Addr(a: Address) | AddrArray(addrs: seq<Address>) | Bool(b: bool)

  /** The `data` field of a transaction: none, a call of a named bot
      function (`encodeFunctionData`), or the raw argument lists given to
      `AbiCoder.encode`. The bytes themselves are produced by the library. */
  datatype Calldata =
    | NoData
    | FunctionCall(name: string, args: seq<AbiValue>)
    | Encoded(types: seq<string>, values: seq<AbiValue>)

  /** What `_common_fields` fetches: the chain id, the sender's nonce and
      address. */
  datatype CommonFields = CommonFields(chainId: nat, nonce: nat, from: Address)

  /** An EIP-1559 (type 2) transaction to the bot contract. */
  datatype Tx = Tx(
    txType: nat,
    chainId: nat,
    nonce: nat,
    from: Address,
    to: Address,
    value: nat,
    gasLimit: nat,
    maxFeePerGas: nat,
    maxPriorityFeePerGas: nat,
    data: Calldata)

  function MakeTx(common: CommonFields, bot: Address, value: nat, gasLimit: nat,
                  maxPriorityFeePerGas: nat, maxFeePerGas: nat, data: Calldata): Tx
  {
    Tx(2, common.chainId, common.nonce, common.from, bot, value, gasLimit,
       maxFeePerGas, maxPriorityFeePerGas, data)
  }

  /** `transferInTx`: sends `amountIn` to the bot with a 60000 gas limit. */
  function TransferInTx(common: CommonFields, bot: Address, amountIn: nat,
                        maxPriorityFeePerGas: nat, maxFeePerGas: nat): (tx: Tx)
    ensures tx.gasLimit == 60000 && tx.value == amountIn && tx.to == bot && tx.data == NoData
    ensures tx.txType == 2 && tx.chainId == common.chainId && tx.nonce == common.nonce && tx.from == common.from
    ensures tx.maxFeePerGas == maxFeePerGas && tx.maxPriorityFeePerGas == maxPriorityFeePerGas
  {
    MakeTx(common, bot, amountIn, 60000, maxPriorityFeePerGas, maxFeePerGas, NoData)
  }

  /** `transferOutTx`: calls `recoverToken(token)` with a 50000 gas limit
      and no value. */
  function TransferOutTx(common: CommonFields, bot: Address, token: Address,
                         maxPriorityFeePerGas: nat, maxFeePerGas: nat): (tx: Tx)
    ensures tx.gasLimit == 50000 && tx.value == 0 && tx.to == bot
    ensures tx.data == FunctionCall("recoverToken", [Addr(token)])
    ensures tx.txType == 2 && tx.chainId == common.chainId && tx.nonce == common.nonce && tx.from == common.from
    ensures tx.maxFeePerGas == maxFeePerGas && tx.maxPriorityFeePerGas == maxPriorityFeePerGas
  {
    MakeTx(common, bot, 0, 50000, maxPriorityFeePerGas, maxFeePerGas,
           FunctionCall("recoverToken", [Addr(token)]))
  }

  /** `approveTx`: calls `approveRouter(router, tokens, force)`; the gas
      limit is 55000 per token. */
  function ApproveTx(common: CommonFields, bot: Address, router: Address, tokens: seq<Address>,
                     force: bool, maxPriorityFeePerGas: nat, maxFeePerGas: nat): (tx: Tx)
    ensures tx.gasLimit == 55000 * |tokens| && tx.value == 0 && tx.to == bot
    ensures tx.data == FunctionCall("approveRouter", [Addr(router), AddrArray(tokens), Bool(force)])
    ensures tx.txType == 2 && tx.chainId == common.chainId && tx.nonce == common.nonce && tx.from == common.from
    ensures tx.maxFeePerGas == maxFeePerGas && tx.maxPriorityFeePerGas == maxPriorityFeePerGas
  {
    MakeTx(common, bot, 0, 55000 * |tokens|, maxPriorityFeePerGas, maxFeePerGas,
           FunctionCall("approveRouter", [Addr(router), AddrArray(tokens), Bool(force)]))
  }

  /** The approval's gas limit grows by 55000 with every token added. */
  lemma ApproveGasPerToken(common: CommonFields, bot: Address, router: Address, tokens: seq<Address>,
                           t: Address, force: bool, prio: nat, maxFee: nat)
    ensures ApproveTx(common, bot, router, tokens + [t], force, prio, maxFee).gasLimit
         == ApproveTx(common, bot, router, tokens, force, prio, maxFee).gasLimit + 55000
  {
  }

  /** The fixed head of the order's calldata types. */
  const OrderHeadTypes: seq<string> := ["uint", "uint", "address"]

  /** `["address", "address", "address"]` for each of `nhop` hops. */
  function HopTypes(nhop: nat): (ts: seq<string>)
    ensures |ts| == 3 * nhop
    ensures forall k :: 0 <= k < |ts| ==> ts[k] == "address"
  {
    if nhop == 0 then [] else HopTypes(nhop - 1) + ["address", "address", "address"]
  }

  /** The hops' `toList()` values, concatenated in order. */
  function HopValues(paths: seq<Path>): (vs: seq<AbiValue>)
    ensures |vs| == 3 * |paths|
  {
    if |paths| == 0 then []
    else
      var l := paths[|paths| - 1].ToList();
      HopValues(paths[..|paths| - 1]) + [Addr(l[0]), Addr(l[1]), Addr(l[2])]
  }

  /** Entries 3*i, 3*i + 1 and 3*i + 2 of the hop values are hop i's
      router, tokenIn and tokenOut, as `toList()` orders them. */
  lemma {:induction false} HopValuesAt(paths: seq<Path>, i: nat)
    requires i < |paths|
    ensures var hv := HopValues(paths);
      && hv[3 * i] == Addr(paths[i].router)
      && hv[3 * i + 1] == Addr(paths[i].tokenIn)
      && hv[3 * i + 2] == Addr(paths[i].tokenOut)
  {
    var n := |paths| - 1;
    if i < n {
      HopValuesAt(paths[..n], i);
      assert paths[..n][i] == paths[i];
    }
  }

  /** The argument lists that `orderTx` builds for the ABI encoder:
      types `["uint","uint","address"]` followed by three "address" per hop,
      values `[amountIn, flashloan, loanFrom]` followed by each hop's
      `toList()`, both of length 3 + 3 * nhop. */
  method OrderCalldata(paths: seq<Path>, amountIn: nat, flashloan: Flashloan, loanFrom: Address)
    returns (calldataTypes: seq<string>, calldataRaw: seq<AbiValue>)
    ensures calldataTypes == OrderHeadTypes + HopTypes(|paths|)
    ensures calldataRaw == [Uint(amountIn), Uint(flashloan.Code()), Addr(loanFrom)] + HopValues(paths)
    ensures |calldataTypes| == |calldataRaw| == 3 + 3 * |paths|
  {
    var nhop := |paths|;
    calldataTypes := ["uint", "uint", "address"];
    calldataRaw := [Uint(amountIn), Uint(flashloan.Code()), Addr(loanFrom)];
    for i := 0 to nhop
      invariant calldataTypes == OrderHeadTypes + HopTypes(i)
      invariant calldataRaw == [Uint(amountIn), Uint(flashloan.Code()), Addr(loanFrom)] + HopValues(paths[..i])
    {
      var l := paths[i].ToList();
      calldataTypes := calldataTypes + ["address", "address", "address"];
      calldataRaw := calldataRaw + [Addr(l[0]), Addr(l[1]), Addr(l[2])];
      assert paths[..i + 1][..i] == paths[..i];
    }
    assert paths[..nhop] == paths;
  }

  /** Each hop occupies three consecutive "address" slots after the head,
      holding its router, tokenIn and tokenOut. */
  lemma OrderCalldataLayout(paths: seq<Path>, amountIn: nat, flashloan: Flashloan, loanFrom: Address, i: nat)
    requires i < |paths|
    ensures var raw := [Uint(amountIn), Uint(flashloan.Code()), Addr(loanFrom)] + HopValues(paths);
      && raw[3 + 3 * i] == Addr(paths[i].router)
      && raw[4 + 3 * i] == Addr(paths[i].tokenIn)
      && raw[5 + 3 * i] == Addr(paths[i].tokenOut)
    ensures (OrderHeadTypes + HopTypes(|paths|))[3 + 3 * i] == "address"
  {
    var head := [Uint(amountIn), Uint(flashloan.Code()), Addr(loanFrom)];
    var hv := HopValues(paths);
    var k := 3 * i;
    HopValuesAt(paths, i);
    AfterHead(head, hv, k);
    AfterHead(head, hv, k + 1);
    AfterHead(head, hv, k + 2);
    AfterHead(OrderHeadTypes, HopTypes(|paths|), k);
  }

  /** Position `|head| + k` of `head + tail` is position `k` of `tail`. */
  lemma AfterHead<T>(head: seq<T>, tail: seq<T>, k: nat)
    requires k < |tail|
    ensures (head + tail)[|head| + k] == tail[k]
  {
  }

  /** `orderTx`: the order transaction, whose data encodes the argument
      lists of `OrderCalldata`, with a 600000 gas limit and no value. */
  method OrderTx(common: CommonFields, bot: Address, paths: seq<Path>, amountIn: nat,
                 flashloan: Flashloan, loanFrom: Address,
                 maxPriorityFeePerGas: nat, maxFeePerGas: nat) returns (tx: Tx)
    ensures tx.gasLimit == 600000 && tx.value == 0 && tx.to == bot
    ensures tx.txType == 2 && tx.chainId == common.chainId && tx.nonce == common.nonce && tx.from == common.from
    ensures tx.data == Encoded(OrderHeadTypes + HopTypes(|paths|),
                               [Uint(amountIn), Uint(flashloan.Code()), Addr(loanFrom)] + HopValues(paths))
    ensures tx.maxFeePerGas == maxFeePerGas && tx.maxPriorityFeePerGas == maxPriorityFeePerGas
  {
    var calldataTypes, calldataRaw := OrderCalldata(paths, amountIn, flashloan, loanFrom);
    tx := MakeTx(common, bot, 0, 600000, maxPriorityFeePerGas, maxFeePerGas,
                 Encoded(calldataTypes, calldataRaw));
  }

  // ---------------------------------------------------------------------
  // Bundles and the relay protocol

  /** One bundle entry: the signer and the unsigned transaction. */
  datatype BundleTx = BundleTx(signer: Address, transaction: Tx)

  /** `toBundle(transaction)`: a one-entry bundle signed by the sender. */
  function ToBundle(sender: Address, transaction: Tx): (b: seq<BundleTx>)
    ensures |b| == 1 && b[0].signer == sender && b[0].transaction == transaction
  {
    [BundleTx(sender, transaction)]
  }

  /** What `signBundle` returns; the signature itself is the library's. */
  datatype SignedBundle = SignedBundle(bundle: seq<BundleTx>)

  /** A relay reply: an object with an `error` field, or anything else
      (the simulation report, or the submission handle). */
  datatype RelayResponse = RelayError(message: string) | RelayOk(payload: string)

  /** A request sent to the relay. */
  datatype RelayCall =
    | Simulate(signed: SignedBundle, blockNumber: nat)
    | SendRawBundle(signed: SignedBundle, targetBlock: nat, replacementUuid: string)

  /** How `sendBundle` ends: it returns "", returns
      `[replacementUuid, bundleSubmission]`, or throws. */
  datatype SendOutcome =
    | NotSent
    | Sent(replacementUuid: string, submission: RelayResponse)
    | Threw(message: string)

  /** `sendBundle(bundle, blockNumber)` against a relay whose replies are
      `simulation` and `submission`; `replacementUuid` is the fresh
      `uuid.v4()`. `calls` lists the relay requests in the order they are
      made. The simulation runs at `blockNumber`; if it reports an error
      nothing is submitted and "" is returned; otherwise the bundle is
      submitted for `blockNumber + 1` with the same replacement id that is
      returned, and a rejected submission throws. */
  method SendBundle(bundle: seq<BundleTx>, blockNumber: nat, replacementUuid: string,
                    simulation: RelayResponse, submission: RelayResponse)
    returns (outcome: SendOutcome, calls: seq<RelayCall>)
    ensures |calls| >= 1 && calls[0] == Simulate(SignedBundle(bundle), blockNumber)
    ensures simulation.RelayError? <==> outcome == NotSent
    ensures simulation.RelayError? ==> |calls| == 1
    ensures simulation.RelayOk? ==>
      calls == [Simulate(SignedBundle(bundle), blockNumber),
                SendRawBundle(SignedBundle(bundle), blockNumber + 1, replacementUuid)]
    ensures outcome.Sent? <==> simulation.RelayOk? && submission.RelayOk?
    ensures outcome.Sent? ==> outcome.replacementUuid == replacementUuid && outcome.submission == submission
    ensures outcome.Threw? <==> simulation.RelayOk? && submission.RelayError?
    ensures outcome.Threw? ==> outcome.message == submission.message
  {
    var signedBundle := SignedBundle(bundle);
    var targetBlock := blockNumber + 1;
    calls := [Simulate(signedBundle, blockNumber)];
    if simulation.RelayError? {
      return NotSent, calls;
    }
    calls := calls + [SendRawBundle(signedBundle, targetBlock, replacementUuid)];
    if submission.RelayError? {
      return Threw(submission.message), calls;
    }
    outcome := Sent(replacementUuid, submission);
  }
}
