/**
 * `notarize_document`: anchor a text's fingerprint on chain by a zero-value
 * self-transfer. The process environment, the RPC node and the key handling
 * of `eth_account` are inputs to the model (oracles); each call the routine
 * makes on them is recorded in a trace so that its order can be stated.
 */
module Notary {
  import opened Wrappers
  import opened HexCodec
  import Utf8
  import Payload
  import Gas

  type Address = string

  /** What `os.getenv` returns for the two settings after `.env` is reloaded. */
  datatype Env = Env(rpcUrl: Option<string>, privateKey: Option<string>)

  /** A setting counts as present when it is neither unset nor empty (Python's `if not x`). */
  predicate Present(setting: Option<string>) {
    setting.Some? && setting.value != ""
  }

  /** The draft handed to `estimate_gas`. */
  datatype GasRequest = GasRequest(from: Address, to: Address, value: nat, data: string)

  /** The transaction dictionary handed to `sign_transaction`. */
  datatype Tx = Tx(chainId: nat, nonce: nat, to: Address, value: nat, data: string, gas: nat, gasPrice: nat)

  /**
   * The node behind one RPC URL. Every query either answers or raises; a
   * raised exception is represented by its message, `str(e)`.
   */
  datatype Node = Node(
    connected: bool,
    transactionCount: Address -> Result<nat, string>,
    gasPrice: Result<nat, string>,
    estimateGas: GasRequest -> Result<nat, string>,
    chainId: Result<nat, string>,
    sendRawTransaction: seq<byte> -> Result<seq<byte>, string>)

  /** `Web3(Web3.HTTPProvider(url))`: the node reached through a URL. */
  type Network = string -> Node

  /** `Account.from_key` and `account.sign_transaction`, with their exceptions. */
  datatype Wallet = Wallet(
    fromKey: string -> Result<Address, string>,
    signTransaction: (string, Tx) -> Result<seq<byte>, string>)

  /** An exception that leaves `notarize_document`. */
  datatype Exception =
    | ValueError(message: string)
    | UnicodeEncodeError(position: nat)
    | Propagated(message: string)

  /** The three ways the routine ends: it raises, or returns an error or a success string. */
  datatype Outcome = Raise(exception: Exception) | ErrStr(text: string) | OkStr(text: string)

  /** One step that touches the network or the key, in the order the routine takes them. */
  datatype Event =
    | Connect(url: string)
    | CheckConnected
    | LoadAccount
    | QueryNonce(address: Address)
    | QueryGasPrice
    | Estimate(request: GasRequest)
    | QueryChainId
    | Sign(tx: Tx)
    | Send(raw: seq<byte>)

  datatype Run = Run(outcome: Outcome, trace: seq<Event>)

  const RpcMissingMessage: string := "未找到 RPC 地址，请检查 .env 文件中的 WEB3_RPC_URL"
  const KeyMissingMessage: string := "未找到私钥，请检查 .env 文件中的 WALLET_PRIVATE_KEY"
  const ConnectErrorPrefix: string := "错误: 无法连接到 RPC: "
  const SuccessPrefix: string := "上链成功! 交易哈希: https://sepolia.etherscan.io/tx/"
  const FailurePrefix: string := "上链失败: "

  /** The position of each step in the pipeline: configuration, connection, account, fees, signing, broadcast. */
  function Stage(e: Event): nat {
    match e
    case Connect(_) => 0
    case CheckConnected => 1
    case LoadAccount => 2
    case QueryNonce(_) => 3
    case QueryGasPrice => 4
    case Estimate(_) => 5
    case QueryChainId => 6
    case Sign(_) => 7
    case Send(_) => 8
  }

  /** A trace that takes the stages in order from the first, skipping none. */
  predicate InOrder(trace: seq<Event>) {
    forall i :: 0 <= i < |trace| ==> Stage(trace[i]) == i
  }

  predicate Signed(trace: seq<Event>) {
    exists i :: 0 <= i < |trace| && trace[i].Sign?
  }

  /**
   * Steps 5 to 7 of the routine, once configuration and connectivity are
   * settled: load the account, resolve nonce, gas price, gas limit and chain
   * id, build the self-transfer, sign and send it.
   */
  function Transact(dataHex: string, key: string, node: Node, wallet: Wallet, prefix: seq<Event>): (run: Run)
    ensures |prefix| < |run.trace| <= |prefix| + 7 && run.trace[..|prefix|] == prefix
    ensures forall i :: |prefix| <= i < |run.trace| ==> Stage(run.trace[i]) == i - |prefix| + 2
    ensures run.outcome.Raise? <==> |run.trace| < |prefix| + 6
    ensures run.outcome.OkStr? ==> |run.trace| == |prefix| + 7
  {
    var t1 := prefix + [LoadAccount];
    match wallet.fromKey(key)
    case Failure(e) => Run(Raise(Propagated(e)), t1)
    case Success(address) =>
      var t2 := t1 + [QueryNonce(address)];
      match node.transactionCount(address)
      case Failure(e) => Run(Raise(Propagated(e)), t2)
      case Success(nonce) =>
        var t3 := t2 + [QueryGasPrice];
        match node.gasPrice
        case Failure(e) => Run(Raise(Propagated(e)), t3)
        case Success(gasPrice) =>
          var request := GasRequest(address, address, 0, dataHex);
          var gas := Gas.GasLimit(node.estimateGas(request));
          var t4 := t3 + [Estimate(request), QueryChainId];
          match node.chainId
          case Failure(e) => Run(Raise(Propagated(e)), t4)
          case Success(chainId) =>
            var tx := Tx(chainId, nonce, address, 0, dataHex, gas, gasPrice);
            var t5 := t4 + [Sign(tx)];
            match wallet.signTransaction(key, tx)
            case Failure(e) => Run(ErrStr(FailurePrefix + e), t5)
            case Success(raw) =>
              var t6 := t5 + [Send(raw)];
              match node.sendRawTransaction(raw)
              case Failure(e) => Run(ErrStr(FailurePrefix + e), t6)
              case Success(txHash) => Run(OkStr(SuccessPrefix + Hex(txHash)), t6)
  }

  /**
   * `notarize_document(text)`. The evidence field is computed first (an
   * unencodable text raises there), then the settings are checked, the
   * node is asked whether it is reachable, and only then is anything loaded,
   * queried, signed or sent.
   */
  function Notarize(text: seq<Utf8.CodePoint>, env: Env, sha256: Payload.Hasher, network: Network, wallet: Wallet): (run: Run)
    ensures InOrder(run.trace)
    ensures run.trace == [] <==> run.outcome.Raise? && !run.outcome.exception.Propagated?
    ensures Signed(run.trace) ==> !run.outcome.Raise?
    ensures run.outcome.OkStr? ==> |run.trace| == 9
    ensures run.outcome.ErrStr? ==> |run.trace| in {2, 8, 9}
  {
    match Payload.EvidenceHex(text, sha256)
    case Failure(position) => Run(Raise(UnicodeEncodeError(position)), [])
    case Success(dataHex) =>
      if !Present(env.rpcUrl) then Run(Raise(ValueError(RpcMissingMessage)), [])
      else if !Present(env.privateKey) then Run(Raise(ValueError(KeyMissingMessage)), [])
      else
        var url := env.rpcUrl.value;
        var node := network(url);
        var t0 := [Connect(url), CheckConnected];
        if !node.connected then Run(ErrStr(ConnectErrorPrefix + url), t0)
        else Transact(dataHex, env.privateKey.value, node, wallet, t0)
  }

  /** The text is encodable and both settings are present: the routine gets as far as the node. */
  predicate Configured(text: seq<Utf8.CodePoint>, env: Env) {
    Utf8.Encode(text).Success? && Present(env.rpcUrl) && Present(env.privateKey)
  }

  /**
   * Everything the transaction needs has been resolved: the node answered
   * the liveness check, the key gave an account, and the nonce, gas price
   * and chain id queries answered.
   */
  predicate Resolved(text: seq<Utf8.CodePoint>, env: Env, network: Network, wallet: Wallet) {
    && Configured(text, env)
    && var node := network(env.rpcUrl.value);
    && node.connected
    && wallet.fromKey(env.privateKey.value).Success?
    && node.transactionCount(wallet.fromKey(env.privateKey.value).value).Success?
    && node.gasPrice.Success?
    && node.chainId.Success?
  }

  /** An unencodable text raises before the settings are even looked at. */
  lemma UnencodableTextRaisesFirst(text: seq<Utf8.CodePoint>, env: Env, sha256: Payload.Hasher, network: Network, wallet: Wallet)
    requires Utf8.Encode(text).Failure?
    ensures Notarize(text, env, sha256, network, wallet)
         == Run(Raise(UnicodeEncodeError(Utf8.Encode(text).error)), [])
  {
  }

  /**
   * A missing RPC URL or key raises ValueError before any network object
   * exists; the URL is checked first, so it wins when both are missing.
   */
  lemma MissingSettingRaises(text: seq<Utf8.CodePoint>, env: Env, sha256: Payload.Hasher, network: Network, wallet: Wallet)
    requires Utf8.Encode(text).Success?
    ensures !Present(env.rpcUrl) ==>
      Notarize(text, env, sha256, network, wallet) == Run(Raise(ValueError(RpcMissingMessage)), [])
    ensures Present(env.rpcUrl) && !Present(env.privateKey) ==>
      Notarize(text, env, sha256, network, wallet) == Run(Raise(ValueError(KeyMissingMessage)), [])
  {
  }

  /** An unreachable node gives the connection error string; no account, no signature, no send. */
  lemma UnreachableNodeReported(text: seq<Utf8.CodePoint>, env: Env, sha256: Payload.Hasher, network: Network, wallet: Wallet)
    requires Configured(text, env) && !network(env.rpcUrl.value).connected
    ensures Notarize(text, env, sha256, network, wallet)
         == Run(ErrStr(ConnectErrorPrefix + env.rpcUrl.value), [Connect(env.rpcUrl.value), CheckConnected])
    ensures !Signed(Notarize(text, env, sha256, network, wallet).trace)
  {
  }

  /**
   * The signed transaction is the zero-value self-transfer carrying the
   * evidence field, with the node's nonce, gas price and chain id and the
   * gas limit derived from its estimate of that same self-transfer.
   */
  lemma SignedTransactionShape(text: seq<Utf8.CodePoint>, env: Env, sha256: Payload.Hasher, network: Network, wallet: Wallet)
    requires Resolved(text, env, network, wallet)
    ensures var trace := Notarize(text, env, sha256, network, wallet).trace;
      var node := network(env.rpcUrl.value);
      var address := wallet.fromKey(env.privateKey.value).value;
      var evidence := Payload.DataHex(sha256(Utf8.Encode(text).value));
      && |trace| >= 8
      && trace[5] == Estimate(GasRequest(address, address, 0, evidence))
      && trace[7] == Sign(Tx(node.chainId.value, node.transactionCount(address).value, address, 0, evidence,
                             Gas.GasLimit(node.estimateGas(GasRequest(address, address, 0, evidence))),
                             node.gasPrice.value))
  {
    var url, key := env.rpcUrl.value, env.privateKey.value;
    var node := network(url);
    var address := wallet.fromKey(key).value;
    var evidence := Payload.DataHex(sha256(Utf8.Encode(text).value));
    assert Payload.EvidenceHex(text, sha256) == Success(evidence);
    var t0 := [Connect(url), CheckConnected];
    assert Notarize(text, env, sha256, network, wallet) == Transact(evidence, key, node, wallet, t0);
  }

  /** Signing happens exactly when every field has been resolved. */
  lemma SignsIffResolved(text: seq<Utf8.CodePoint>, env: Env, sha256: Payload.Hasher, network: Network, wallet: Wallet)
    ensures Signed(Notarize(text, env, sha256, network, wallet).trace) <==> Resolved(text, env, network, wallet)
  {
    var trace := Notarize(text, env, sha256, network, wallet).trace;
    if Signed(trace) {
      var i :| 0 <= i < |trace| && trace[i].Sign?;
      assert Stage(trace[i]) == 7;
      assert Configured(text, env);
      var url, key := env.rpcUrl.value, env.privateKey.value;
      var node := network(url);
      assert node.connected;
      var evidence := Payload.DataHex(sha256(Utf8.Encode(text).value));
      assert Payload.EvidenceHex(text, sha256) == Success(evidence);
      var run := Transact(evidence, key, node, wallet, [Connect(url), CheckConnected]);
      assert trace == run.trace;
      assert !run.outcome.Raise?;
    }
    if Resolved(text, env, network, wallet) {
      SignedTransactionShape(text, env, sha256, network, wallet);
      assert trace[7].Sign?;
    }
  }

  /**
   * The routine raises exactly for an unencodable text, a missing setting,
   * or, once the node is reachable, a failing key, nonce, gas price or
   * chain id lookup. Gas estimation, signing and sending never raise.
   */
  lemma RaisesExactly(text: seq<Utf8.CodePoint>, env: Env, sha256: Payload.Hasher, network: Network, wallet: Wallet)
    ensures Notarize(text, env, sha256, network, wallet).outcome.Raise?
        <==> !Configured(text, env)
             || (network(env.rpcUrl.value).connected && !Resolved(text, env, network, wallet))
  {
  }

  /**
   * On a reachable node the lookups run in the order key, nonce, gas price,
   * chain id, and the first one that fails raises its own exception unchanged.
   */
  lemma LookupErrorPropagates(text: seq<Utf8.CodePoint>, env: Env, sha256: Payload.Hasher, network: Network, wallet: Wallet)
    requires Configured(text, env) && network(env.rpcUrl.value).connected
    ensures var outcome := Notarize(text, env, sha256, network, wallet).outcome;
      var node := network(env.rpcUrl.value);
      var account := wallet.fromKey(env.privateKey.value);
      && (account.Failure? ==> outcome == Raise(Propagated(account.error)))
      && (account.Success? ==>
            var nonce := node.transactionCount(account.value);
            && (nonce.Failure? ==> outcome == Raise(Propagated(nonce.error)))
            && (nonce.Success? && node.gasPrice.Failure? ==> outcome == Raise(Propagated(node.gasPrice.error)))
            && (nonce.Success? && node.gasPrice.Success? && node.chainId.Failure? ==>
                  outcome == Raise(Propagated(node.chainId.error))))
  {
    assert Payload.EvidenceHex(text, sha256).Success?;
  }

  /**
   * Once signed, a failure to sign or to send comes back as the failure
   * string with the exception's message, never as an exception.
   */
  lemma BroadcastErrorsReturned(text: seq<Utf8.CodePoint>, env: Env, sha256: Payload.Hasher, network: Network, wallet: Wallet)
    requires Resolved(text, env, network, wallet)
    ensures var run := Notarize(text, env, sha256, network, wallet);
      var sent := wallet.signTransaction(env.privateKey.value, run.trace[7].tx);
      && (sent.Failure? ==> run.outcome == ErrStr(FailurePrefix + sent.error) && |run.trace| == 8)
      && (sent.Success? ==>
            var reply := network(env.rpcUrl.value).sendRawTransaction(sent.value);
            && run.trace[8] == Send(sent.value)
            && (reply.Failure? ==> run.outcome == ErrStr(FailurePrefix + reply.error))
            && (reply.Success? ==> run.outcome == OkStr(SuccessPrefix + Hex(reply.value))))
  {
    SignedTransactionShape(text, env, sha256, network, wallet);
    var evidence := Payload.DataHex(sha256(Utf8.Encode(text).value));
    assert Payload.EvidenceHex(text, sha256) == Success(evidence);
  }
}
