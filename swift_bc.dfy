/** The payment-order contract: creating a validated order under its
    reference number, checking whether one exists, reading one back, and
    seeding the ledger with two sample orders. */
module SwiftBc {
  import opened Wrappers
  import opened JavaLang
  import opened PaymentOrders
  import Codec
  import opened Ledger

  /** The codes the contract puts in an exception's payload. */
  datatype SwiftBcErrors = NotEnoughParameter | PaymentOrderNotFound | PaymentOrderAlreadyExists
  {
    /** The enum constant's name, the text of the payload. */
    function Name(): string
    {
      match this
      case NotEnoughParameter => "NOT_ENOUGH_PARAMETER"
      case PaymentOrderNotFound => "PAYMENTORDER_NOT_FOUND"
      case PaymentOrderAlreadyExists => "PAYMENTORDER_ALREADY_EXISTS"
    }
  }

  /** What an operation throws: the contract's own exception, with its message
      and code, or the JSON library's failure to read a stored value. */
  datatype Error =
    | ChaincodeException(message: string, code: SwiftBcErrors)
    | DeserializationFailure(json: string)

  function MissingParameter(paramName: string): Error
  {
    ChaincodeException(paramName + " is empty", NotEnoughParameter)
  }

  function AlreadyExists(swiftCode: string): Error
  {
    ChaincodeException("The Payment Order (" + swiftCode + ") already exists", PaymentOrderAlreadyExists)
  }

  function NotFound(swiftCode: string): Error
  {
    ChaincodeException("The Payment Order (" + swiftCode + ") does not exist", PaymentOrderNotFound)
  }

  /** The payload of each exception is the name of its enum constant, and
      the three names are distinct. */
  lemma ErrorPayloads(paramName: string, swiftCode: string)
    ensures MissingParameter(paramName).code.Name() == "NOT_ENOUGH_PARAMETER"
    ensures NotFound(swiftCode).code.Name() == "PAYMENTORDER_NOT_FOUND"
    ensures AlreadyExists(swiftCode).code.Name() == "PAYMENTORDER_ALREADY_EXISTS"
    ensures forall a: SwiftBcErrors, b: SwiftBcErrors :: a.Name() == b.Name() ==> a == b
  {
  }

  /** The text between a fixed prefix and a fixed suffix is read back
      exactly. */
  lemma Embedded(prefix: string, k: string, suffix: string)
    ensures |prefix + k + suffix| == |prefix| + |k| + |suffix|
    ensures (prefix + k + suffix)[|prefix|..|prefix| + |k|] == k
  {
  }

  /** The messages name the reference number they are about: different
      numbers give different messages, and the missing-order and
      existing-order exceptions are never the same. */
  lemma ErrorMessagesIdentifyKey(k1: string, k2: string)
    ensures NotFound(k1) == NotFound(k2) ==> k1 == k2
    ensures AlreadyExists(k1) == AlreadyExists(k2) ==> k1 == k2
    ensures NotFound(k1) != AlreadyExists(k2)
    ensures MissingParameter(k1) == MissingParameter(k2) ==> k1 == k2
  {
    var p := "The Payment Order (";
    var nf, ae := ") does not exist", ") already exists";
    Embedded(p, k1, nf);
    Embedded(p, k2, nf);
    Embedded(p, k1, ae);
    Embedded(p, k2, ae);
    Embedded("", k1, " is empty");
    Embedded("", k2, " is empty");
    assert "" + k1 == k1 && "" + k2 == k2;
  }

  // -------------------------------------------------------------- validation

  /** `isEmpty`: the parameter named `paramName` is rejected when it is null,
      empty, or, for the parameter named "amount" only, the text "0". */
  predicate IsEmpty(paramName: string, param: JString)
  {
    param.None? || param.value == "" || (paramName == "amount" && param.value == "0")
  }

  /** `null` and `""` are rejected for every parameter; any other text is
      rejected only when it is "0" and the parameter is `amount`. */
  lemma IsEmptyCases(paramName: string, param: JString)
    ensures param == None ==> IsEmpty(paramName, param)
    ensures param == Some("") ==> IsEmpty(paramName, param)
    ensures param.Some? && param.value != "" ==>
      (IsEmpty(paramName, param) <==> paramName == "amount" && param.value == "0")
  {
  }

  /** The field positions (in constructor order) that `validationParam`
      checks, in the order it checks them: position 11,
      `additionalInstruction`, is missing, and positions 7 and 8,
      `receiverAccount` and `receiverName`, are swapped. */
  const CheckOrder: seq<nat> := [0, 1, 2, 3, 4, 5, 6, 8, 7, 9, 10, 12]

  /** Every field but `additionalInstruction` is checked, each exactly
      once. */
  lemma CheckOrderCoversAllButAdditionalInstruction()
    ensures forall i :: 0 <= i < |FieldNames| ==> (i in CheckOrder <==> FieldNames[i] != "additionalInstruction")
    ensures forall j, k :: 0 <= j < k < |CheckOrder| ==> CheckOrder[j] != CheckOrder[k]
  {
  }

  /** The parameters `validationParam` checks, named, in the order it checks
      them. The arguments of `CreatePaymentOrder` are passed bundled, in
      constructor order, as the record they become. `additionalInstruction`
      is not among them, and `receiverName` comes before `receiverAccount`. */
  function CheckedParams(args: PaymentOrder): (ps: seq<(string, JString)>)
    ensures |ps| == |CheckOrder|
    ensures forall k :: 0 <= k < |ps| ==> ps[k] == (FieldNames[CheckOrder[k]], Fields(args)[CheckOrder[k]])
  {
    [("swiftCode", args.swiftCode), ("date", args.date), ("amount", args.amount),
     ("currency", args.currency), ("ordererName", args.ordererName),
     ("ordererAddress", args.ordererAddress), ("ordererId", args.ordererId),
     ("receiverName", args.receiverName), ("receiverAccount", args.receiverAccount),
     ("receiverAddress", args.receiverAddress),
     ("remittanceInformation", args.remittanceInformation), ("chargeDetail", args.chargeDetail)]
  }

  /** The position of the first rejected parameter, `|ps|` when there is
      none. */
  function FirstEmpty(ps: seq<(string, JString)>): (i: nat)
    ensures i <= |ps|
    ensures forall k :: 0 <= k < i ==> !IsEmpty(ps[k].0, ps[k].1)
    ensures i < |ps| ==> IsEmpty(ps[i].0, ps[i].1)
  {
    if ps == [] then 0
    else if IsEmpty(ps[0].0, ps[0].1) then 0
    else 1 + FirstEmpty(ps[1..])
  }

  /** `validationParam`: the checks run in order and the first rejected
      parameter is reported by name. */
  function ValidationParam(args: PaymentOrder): (r: Outcome<Error>)
    ensures r.Pass? <==> forall k :: 0 <= k < 12 ==> !IsEmpty(CheckedParams(args)[k].0, CheckedParams(args)[k].1)
    ensures r.Pass? ==> args.swiftCode.Some? && args.swiftCode.value != ""
    ensures r.Fail? ==> r.error.ChaincodeException? && r.error.code == NotEnoughParameter
  {
    var ps := CheckedParams(args);
    var i := FirstEmpty(ps);
    if i < |ps| then Fail(MissingParameter(ps[i].0)) else Pass
  }

  /** When the `k`-th check is the first to reject, validation fails naming
      that parameter. */
  lemma ValidationReportsFirstEmpty(args: PaymentOrder, k: nat)
    requires k < 12
    requires forall j :: 0 <= j < k ==> !IsEmpty(CheckedParams(args)[j].0, CheckedParams(args)[j].1)
    requires IsEmpty(CheckedParams(args)[k].0, CheckedParams(args)[k].1)
    ensures ValidationParam(args) == Fail(MissingParameter(CheckedParams(args)[k].0))
  {
  }

  /** Validation passes exactly when the twelve checked parameters are all
      non-null and non-empty and the amount is not "0". */
  lemma ValidationPassesIff(args: PaymentOrder)
    ensures ValidationParam(args).Pass? <==>
      && args.swiftCode.Some? && args.swiftCode.value != ""
      && args.date.Some? && args.date.value != ""
      && args.amount.Some? && args.amount.value != "" && args.amount.value != "0"
      && args.currency.Some? && args.currency.value != ""
      && args.ordererName.Some? && args.ordererName.value != ""
      && args.ordererAddress.Some? && args.ordererAddress.value != ""
      && args.ordererId.Some? && args.ordererId.value != ""
      && args.receiverName.Some? && args.receiverName.value != ""
      && args.receiverAccount.Some? && args.receiverAccount.value != ""
      && args.receiverAddress.Some? && args.receiverAddress.value != ""
      && args.remittanceInformation.Some? && args.remittanceInformation.value != ""
      && args.chargeDetail.Some? && args.chargeDetail.value != ""
  {
    var ps := CheckedParams(args);
    if ValidationParam(args).Pass? {
      assert !IsEmpty(ps[0].0, ps[0].1) && !IsEmpty(ps[1].0, ps[1].1) && !IsEmpty(ps[2].0, ps[2].1)
          && !IsEmpty(ps[3].0, ps[3].1) && !IsEmpty(ps[4].0, ps[4].1) && !IsEmpty(ps[5].0, ps[5].1)
          && !IsEmpty(ps[6].0, ps[6].1) && !IsEmpty(ps[7].0, ps[7].1) && !IsEmpty(ps[8].0, ps[8].1)
          && !IsEmpty(ps[9].0, ps[9].1) && !IsEmpty(ps[10].0, ps[10].1) && !IsEmpty(ps[11].0, ps[11].1);
    } else {
      var i := FirstEmpty(ps);
      assert IsEmpty(ps[i].0, ps[i].1);
      assert i == 0 || i == 1 || i == 2 || i == 3 || i == 4 || i == 5 || i == 6
          || i == 7 || i == 8 || i == 9 || i == 10 || i == 11;
    }
  }

  /** Only the amount check treats "0" as missing. */
  lemma ZeroIsMissingOnlyForAmount(paramName: string)
    ensures IsEmpty(paramName, Some("0")) <==> paramName == "amount"
  {
  }

  /** `additionalInstruction` is never validated: whatever it is, even null or
      empty, the outcome of validation is the same. */
  lemma AdditionalInstructionNotValidated(args: PaymentOrder, x: JString)
    ensures ValidationParam(args.(additionalInstruction := x)) == ValidationParam(args)
  {
    assert CheckedParams(args.(additionalInstruction := x)) == CheckedParams(args);
  }

  /** When both the receiver's name and account are missing (and everything
      checked before them is present), the name is the one reported. */
  lemma ReceiverNameReportedBeforeAccount(args: PaymentOrder)
    requires forall j :: 0 <= j < 7 ==> !IsEmpty(CheckedParams(args)[j].0, CheckedParams(args)[j].1)
    requires IsEmpty("receiverName", args.receiverName) && IsEmpty("receiverAccount", args.receiverAccount)
    ensures ValidationParam(args) == Fail(MissingParameter("receiverName"))
  {
    ValidationReportsFirstEmpty(args, 7);
  }

  // ----------------------------------------------------------- observations

  /** `PaymentOrderExists`: a non-empty value is stored under the key. */
  function PaymentOrderExists(state: map<string, string>, swiftCode: string): (r: bool)
    ensures r <==> swiftCode in state && state[swiftCode] != ""
  {
    var json := GetStringState(state, swiftCode);
    json.Some? && json.value != ""
  }

  /** `ReadPaymentOrder`: the decoded record, `NotFound` exactly when no
      payment order exists under the key, and the JSON library's failure when
      the stored value is not a record. */
  function ReadPaymentOrder(state: map<string, string>, swiftCode: string): (r: Result<PaymentOrder, Error>)
    ensures r == Failure(NotFound(swiftCode)) <==> !PaymentOrderExists(state, swiftCode)
    ensures r.Success? ==> Codec.Decode(state[swiftCode]) == Some(r.value)
    ensures PaymentOrderExists(state, swiftCode) && Codec.Decode(state[swiftCode]).Some?
            ==> r == Success(Codec.Decode(state[swiftCode]).value)
    ensures r.Failure? && r.error.DeserializationFailure?
            ==> PaymentOrderExists(state, swiftCode) && Codec.Decode(state[swiftCode]).None?
    ensures PaymentOrderExists(state, swiftCode) && Codec.Decode(state[swiftCode]).None?
            ==> r == Failure(DeserializationFailure(state[swiftCode]))
  {
    var json := GetStringState(state, swiftCode);
    if json.None? || json.value == "" then Failure(NotFound(swiftCode))
    else
      match Codec.Decode(json.value)
      case Some(po) => Success(po)
      case None => Failure(DeserializationFailure(json.value))
  }

  /** A record just stored under a key reads back unchanged. */
  lemma ReadStored(state: map<string, string>, key: string, po: PaymentOrder)
    ensures ReadPaymentOrder(state[key := Codec.Encode(po)], key) == Success(po)
  {
    Codec.RoundTrip(po);
  }

  /** A write under one key leaves what is read under any other key alone. */
  lemma ReadOtherKey(state: map<string, string>, written: string, value: string, key: string)
    requires written != key
    ensures ReadPaymentOrder(state[written := value], key) == ReadPaymentOrder(state, key)
  {
    assert GetStringState(state[written := value], key) == GetStringState(state, key);
  }

  /** A key never written reads as not found and does not exist. */
  lemma ReadMiss(state: map<string, string>, swiftCode: string)
    requires swiftCode !in state
    ensures ReadPaymentOrder(state, swiftCode) == Failure(NotFound(swiftCode))
    ensures !PaymentOrderExists(state, swiftCode)
  {
  }

  // ------------------------------------------------------------------ create

  /** What `CreatePaymentOrder` returns or throws on a ledger in `state`:
      validation first, then the existence check, then success with the
      record built from the arguments. */
  function CreateOutcome(state: map<string, string>, args: PaymentOrder): (r: Result<PaymentOrder, Error>)
    ensures r.Success? ==> r.value == args && ValidationParam(args).Pass?
  {
    match ValidationParam(args)
    case Fail(e) => Failure(e)
    case Pass =>
      var key := args.swiftCode.value;
      if PaymentOrderExists(state, key) then Failure(AlreadyExists(key))
      else Success(args)
  }

  /** The ledger after `CreatePaymentOrder`: one write of the encoded record
      under its reference number on success, no change otherwise. */
  function AfterCreate(state: map<string, string>, args: PaymentOrder): map<string, string>
  {
    match CreateOutcome(state, args)
    case Success(po) => state[po.swiftCode.value := Codec.Encode(po)]
    case Failure(_) => state
  }

  /** Error precedence: a rejected parameter is reported before anything
      about the ledger is looked at, and nothing is written. */
  lemma CreateRejectsMissingParameter(state: map<string, string>, args: PaymentOrder)
    requires ValidationParam(args).Fail?
    ensures CreateOutcome(state, args) == Failure(ValidationParam(args).error)
    ensures CreateOutcome(state, args).error.code == NotEnoughParameter
    ensures AfterCreate(state, args) == state
  {
  }

  /** Valid arguments for a reference number that already has a payment order
      are rejected, and nothing is written. */
  lemma CreateRejectsExisting(state: map<string, string>, args: PaymentOrder)
    requires ValidationParam(args).Pass?
    requires PaymentOrderExists(state, args.swiftCode.value)
    ensures CreateOutcome(state, args) == Failure(AlreadyExists(args.swiftCode.value))
    ensures AfterCreate(state, args) == state
  {
  }

  /** Valid arguments for a free reference number succeed, return a record
      with exactly the arguments as its fields, and write its encoding under
      that key alone. */
  lemma CreateSucceeds(state: map<string, string>, args: PaymentOrder)
    requires ValidationParam(args).Pass?
    requires !PaymentOrderExists(state, args.swiftCode.value)
    ensures CreateOutcome(state, args) == Success(args)
    ensures AfterCreate(state, args) == state[args.swiftCode.value := Codec.Encode(args)]
    ensures forall k :: k != args.swiftCode.value ==> GetStringState(AfterCreate(state, args), k) == GetStringState(state, k)
  {
    var after := AfterCreate(state, args);
    assert CreateOutcome(state, args) == Success(args);
    assert after == state[args.swiftCode.value := Codec.Encode(args)];
    forall k | k != args.swiftCode.value
      ensures GetStringState(after, k) == GetStringState(state, k)
    {
      assert k in after <==> k in state;
    }
  }

  /** After a successful create the payment order exists. */
  lemma CreateThenExists(state: map<string, string>, args: PaymentOrder)
    requires CreateOutcome(state, args).Success?
    ensures PaymentOrderExists(AfterCreate(state, args), args.swiftCode.value)
  {
    var key := args.swiftCode.value;
    assert AfterCreate(state, args)[key] == Codec.Encode(args);
  }

  /** After a successful create, reading the key gives back the created
      record, field for field. */
  lemma CreateThenRead(state: map<string, string>, args: PaymentOrder)
    requires CreateOutcome(state, args).Success?
    ensures ReadPaymentOrder(AfterCreate(state, args), args.swiftCode.value) == Success(args)
  {
    var key := args.swiftCode.value;
    assert AfterCreate(state, args)[key] == Codec.Encode(args);
    Codec.RoundTrip(args);
  }

  /** After a successful create, a second create with the same reference
      number and any other valid arguments is rejected and changes nothing. */
  lemma SecondCreateRejected(state: map<string, string>, first: PaymentOrder, second: PaymentOrder)
    requires CreateOutcome(state, first).Success?
    requires ValidationParam(second).Pass?
    requires second.swiftCode == first.swiftCode
    ensures CreateOutcome(AfterCreate(state, first), second) == Failure(AlreadyExists(first.swiftCode.value))
    ensures AfterCreate(AfterCreate(state, first), second) == AfterCreate(state, first)
  {
    var after := AfterCreate(state, first);
    CreateThenExists(state, first);
    assert PaymentOrderExists(after, second.swiftCode.value);
    CreateRejectsExisting(after, second);
  }

  /** `CreatePaymentOrder`: validates, checks for an existing order, then
      writes the encoded record under its reference number exactly once. */
  method CreatePaymentOrder(
    stub: Stub,
    swiftCode: JString, date: JString, amount: JString, currency: JString,
    ordererName: JString, ordererAddress: JString, ordererId: JString,
    receiverAccount: JString, receiverName: JString, receiverAddress: JString,
    remittanceInformation: JString, additionalInstruction: JString, chargeDetail: JString)
    returns (r: Result<PaymentOrder, Error>)
    modifies stub
    ensures
      var args := PaymentOrder(swiftCode, date, amount, currency, ordererName, ordererAddress,
                               ordererId, receiverAccount, receiverName, receiverAddress,
                               remittanceInformation, additionalInstruction, chargeDetail);
      && r == CreateOutcome(old(stub.state), args)
      && stub.state == AfterCreate(old(stub.state), args)
      && stub.puts == if r.Success? then old(stub.puts) + [(swiftCode.value, Codec.Encode(args))]
                      else old(stub.puts)
  {
    var args := PaymentOrder(swiftCode, date, amount, currency, ordererName, ordererAddress,
                             ordererId, receiverAccount, receiverName, receiverAddress,
                             remittanceInformation, additionalInstruction, chargeDetail);
    var checked := ValidationParam(args);
    if checked.Fail? {
      return Failure(checked.error);
    }
    var key := swiftCode.value;
    if PaymentOrderExists(stub.state, key) {
      return Failure(AlreadyExists(key));
    }
    var paymentOrder := PaymentOrder(swiftCode, date, amount, currency, ordererName, ordererAddress,
                                     ordererId, receiverAccount, receiverName, receiverAddress,
                                     remittanceInformation, additionalInstruction, chargeDetail);
    var json := Codec.Encode(paymentOrder);
    stub.PutStringState(key, json);
    return Success(paymentOrder);
  }

  // -------------------------------------------------------------------- seed

  const Seed1: PaymentOrder :=
    PaymentOrder(Some("paymentOrder1"), Some("20210121"), Some("70000"), Some("KRW"),
                 Some("테스트1"), Some("서울어딘가"), Some("orderer1"), Some("010101010101"),
                 Some("receiver1"), Some("미국어딘가"), Some("원화를 보낸다"),
                 Some("재주껏 바꿔써라"), Some("1"))

  const Seed2: PaymentOrder :=
    PaymentOrder(Some("paymentOrder2"), Some("20210121"), Some("100000"), Some("KRW"),
                 Some("테스트2"), Some("미국어딘가"), Some("orderer2"), Some("101010101010"),
                 Some("receiver2"), Some("한국어딘가"), Some("원화를 보낸다"),
                 Some("편하지?"), Some("2"))

  /** What `InitLedger` throws, if anything, and the ledger it leaves: the
      two seed creates in order, the first failure ending the transaction
      (a write already done stays in the state). */
  function InitLedgerOutcome(state: map<string, string>): (Outcome<Error>, map<string, string>)
  {
    match CreateOutcome(state, Seed1)
    case Failure(e) => (Fail(e), state)
    case Success(_) =>
      var afterFirst := AfterCreate(state, Seed1);
      match CreateOutcome(afterFirst, Seed2)
      case Failure(e) => (Fail(e), afterFirst)
      case Success(_) => (Pass, AfterCreate(afterFirst, Seed2))
  }

  lemma SeedsAreValid()
    ensures ValidationParam(Seed1).Pass? && ValidationParam(Seed2).Pass?
  {
    ValidationPassesIff(Seed1);
    ValidationPassesIff(Seed2);
  }

  /** On a ledger holding neither seed key, seeding succeeds and stores both
      records, which then read back unchanged. */
  lemma InitLedgerOnFreshLedger(state: map<string, string>)
    requires !PaymentOrderExists(state, "paymentOrder1") && !PaymentOrderExists(state, "paymentOrder2")
    ensures InitLedgerOutcome(state).0 == Pass
    ensures InitLedgerOutcome(state).1
            == state["paymentOrder1" := Codec.Encode(Seed1)]["paymentOrder2" := Codec.Encode(Seed2)]
    ensures ReadPaymentOrder(InitLedgerOutcome(state).1, "paymentOrder1") == Success(Seed1)
    ensures ReadPaymentOrder(InitLedgerOutcome(state).1, "paymentOrder2") == Success(Seed2)
  {
    SeedsAreValid();
    CreateTwoFresh(state, Seed1, Seed2);
  }

  /** Two valid creates under distinct free reference numbers both succeed,
      and each record reads back afterwards. */
  lemma CreateTwoFresh(state: map<string, string>, a: PaymentOrder, b: PaymentOrder)
    requires ValidationParam(a).Pass? && ValidationParam(b).Pass?
    requires a.swiftCode.value != b.swiftCode.value
    requires !PaymentOrderExists(state, a.swiftCode.value) && !PaymentOrderExists(state, b.swiftCode.value)
    ensures CreateOutcome(state, a) == Success(a)
    ensures CreateOutcome(AfterCreate(state, a), b) == Success(b)
    ensures AfterCreate(AfterCreate(state, a), b)
            == state[a.swiftCode.value := Codec.Encode(a)][b.swiftCode.value := Codec.Encode(b)]
    ensures ReadPaymentOrder(AfterCreate(AfterCreate(state, a), b), a.swiftCode.value) == Success(a)
    ensures ReadPaymentOrder(AfterCreate(AfterCreate(state, a), b), b.swiftCode.value) == Success(b)
  {
    var ka, kb := a.swiftCode.value, b.swiftCode.value;
    CreateSucceeds(state, a);
    var afterFirst := state[ka := Codec.Encode(a)];
    assert !PaymentOrderExists(afterFirst, kb);
    CreateSucceeds(afterFirst, b);
    ReadStored(state, ka, a);
    ReadOtherKey(afterFirst, kb, Codec.Encode(b), ka);
    ReadStored(afterFirst, kb, b);
  }

  /** When the first seed key is taken, seeding fails on it before any
      write. */
  lemma InitLedgerFirstTaken(state: map<string, string>)
    requires PaymentOrderExists(state, "paymentOrder1")
    ensures InitLedgerOutcome(state) == (Fail(AlreadyExists("paymentOrder1")), state)
  {
    SeedsAreValid();
  }

  /** When only the second seed key is taken, the first record is written and
      seeding then fails on the second. */
  lemma InitLedgerSecondTaken(state: map<string, string>)
    requires !PaymentOrderExists(state, "paymentOrder1") && PaymentOrderExists(state, "paymentOrder2")
    ensures InitLedgerOutcome(state)
            == (Fail(AlreadyExists("paymentOrder2")), state["paymentOrder1" := Codec.Encode(Seed1)])
  {
    SeedsAreValid();
    CreateSucceeds(state, Seed1);
    assert PaymentOrderExists(AfterCreate(state, Seed1), "paymentOrder2");
  }

  lemma AppendTwo<T>(s: seq<T>, a: T, b: T)
    ensures (s + [a]) + [b] == s + [a, b]
  {
  }

  /** `InitLedger`: creates the two sample orders, `paymentOrder1` then
      `paymentOrder2`, letting a failure of either propagate. */
  method InitLedger(stub: Stub) returns (r: Outcome<Error>)
    modifies stub
    ensures (r, stub.state) == InitLedgerOutcome(old(stub.state))
    ensures CreateOutcome(old(stub.state), Seed1).Failure? ==> stub.puts == old(stub.puts)
    ensures CreateOutcome(old(stub.state), Seed1).Success? && r.Fail?
            ==> stub.puts == old(stub.puts) + [("paymentOrder1", Codec.Encode(Seed1))]
    ensures r.Pass? ==> stub.puts == old(stub.puts) + [("paymentOrder1", Codec.Encode(Seed1)),
                                                       ("paymentOrder2", Codec.Encode(Seed2))]
  {
    ghost var s0, p0 := stub.state, stub.puts;
    var first := CreatePaymentOrder(stub, Some("paymentOrder1"), Some("20210121"), Some("70000"), Some("KRW"),
                                    Some("테스트1"), Some("서울어딘가"), Some("orderer1"), Some("010101010101"),
                                    Some("receiver1"), Some("미국어딘가"), Some("원화를 보낸다"),
                                    Some("재주껏 바꿔써라"), Some("1"));
    assert first == CreateOutcome(s0, Seed1);
    ghost var s1, p1 := stub.state, stub.puts;
    assert s1 == AfterCreate(s0, Seed1);
    if first.Failure? {
      return Fail(first.error);
    }
    assert p1 == p0 + [("paymentOrder1", Codec.Encode(Seed1))];
    var second := CreatePaymentOrder(stub, Some("paymentOrder2"), Some("20210121"), Some("100000"), Some("KRW"),
                                     Some("테스트2"), Some("미국어딘가"), Some("orderer2"), Some("101010101010"),
                                     Some("receiver2"), Some("한국어딘가"), Some("원화를 보낸다"),
                                     Some("편하지?"), Some("2"));
    assert second == CreateOutcome(s1, Seed2);
    assert stub.state == AfterCreate(s1, Seed2);
    if second.Failure? {
      return Fail(second.error);
    }
    ghost var w1, w2 := ("paymentOrder1", Codec.Encode(Seed1)), ("paymentOrder2", Codec.Encode(Seed2));
    assert stub.puts == (p0 + [w1]) + [w2];
    AppendTwo(p0, w1, w2);
    return Pass;
  }
}
