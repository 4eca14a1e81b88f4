# Swift payment orders on a Fabric ledger, in Dafny

This project models the `basic` chaincode contract (`SwiftBc`) and its
payment-order record (`PaymentOrder`). The contract stores payment orders in
the ledger's world state under their reference number (`swiftCode`). It has
four transactions:

- `CreatePaymentOrder` checks twelve parameters in a fixed order. It then
  rejects a reference number that already has an order. Otherwise it writes
  the JSON form of the new record, in one write.
- `PaymentOrderExists` tells whether a non-empty value is stored under a key.
- `ReadPaymentOrder` decodes the stored value, or reports that nothing is
  there.
- `InitLedger` creates two sample orders, `paymentOrder1` and then
  `paymentOrder2`.

The record holds thirteen strings. Two records are equal when their reference
numbers are equal. The hash code, however, reads all thirteen fields.

Files and modules:

- `wrappers.dfy` (`Wrappers`): `Option`, `Result` and `Outcome`. A Java `null`
  is `None`, and a thrown exception is a `Failure`/`Fail` value.
- `java_lang.dfy` (`JavaLang`): the Java library behaviour the record relies
  on. This covers nullable strings (`JString`), 32-bit `int` wrap-around,
  `String.hashCode` over UTF-16 code units, `Objects.hash` and
  `Objects.deepEquals`.
- `payment_order.dfy` (`PaymentOrders`): the record as a datatype. Its
  accessors are the datatype's field destructors, so each returns its
  constructor argument. It also holds `equals`, `hashCode` and their lemmas.
- `codec.dfy` (`Codec`): the JSON form of a record. Encoding writes a compact
  flat object with the thirteen keys in declaration order. Decoding skips
  whitespace. The round trip `Decode(Encode(po)) == Some(po)` is proved.
- `ledger.dfy` (`Ledger`): the transaction's stub as a class. It has a
  `map<string, string>` world state and a ghost log of writes in order.
- `swift_bc.dfy` (`SwiftBc`): the contract. The reading operations are
  functions of the world state. `CreatePaymentOrder` and `InitLedger` are
  methods that modify the stub. Each method is proved equal to a pure
  specification (`CreateOutcome`/`AfterCreate`, `InitLedgerOutcome`), and the
  lemmas state the contract's promises about those specifications.

The model follows the code in these places:

- Only twelve parameters are validated. `additionalInstruction` is never
  checked, so it may be null or empty.
- `receiverName` is checked before `receiverAccount`, although the
  constructor takes them in the other order.
- A stored value that cannot be decoded is a `DeserializationFailure`. That is
  the JSON library's exception, not one of the contract's three codes, and it
  is distinct from "not found".

## Model

| member | source | states |
|---|---|---|
| `JavaLang.Wrap32` | src/main/java/org/hyperledger/fabric/samples/assettransfer/PaymentOrder.java:130-142 | Java `int` arithmetic gives the value congruent to the exact result modulo 2^32. |
| `JavaLang.Utf16Units` | src/main/java/org/hyperledger/fabric/samples/assettransfer/PaymentOrder.java:130-142 | The chars that `String.hashCode` folds are UTF-16 code units below 0x10000. A character in the Basic Multilingual Plane is one unit equal to its code, and a string made only of such characters has exactly its codes as units. A character above it becomes the surrogate pair 0xD800 + (c - 0x10000) / 0x400, 0xDC00 + (c - 0x10000) % 0x400. |
| `JavaLang.Utf16UnitsAppend` | src/main/java/org/hyperledger/fabric/samples/assettransfer/PaymentOrder.java:130-142 | The units of a concatenation are the units of its parts in order. Together with the first-character clauses of `Utf16Units`, this fixes every unit of every string. |
| `JavaLang.DeepEquals` | src/main/java/org/hyperledger/fabric/samples/assettransfer/PaymentOrder.java:123-125 | `Objects.deepEquals` on two string arrays holds exactly when the arrays hold the same null-or-string values. |
| `JavaLang.StepInjective` | src/main/java/org/hyperledger/fabric/samples/assettransfer/PaymentOrder.java:130-142 | One step `h = 31 * h + x` of the hash loop on a 32-bit int loses no information about `h`. |
| `JavaLang.ObjectsHashSeesEveryElement` | src/main/java/org/hyperledger/fabric/samples/assettransfer/PaymentOrder.java:130-142 | Two `Objects.hash` argument lists that differ at one position, where the elements hash differently, get different hashes. |
| `JavaLang.ObjectsHashSnoc` | src/main/java/org/hyperledger/fabric/samples/assettransfer/PaymentOrder.java:130-142 | `Objects.hash`, as used by `hashCode`, is 1 for no arguments, and each further argument `e` turns the hash `h` into `31 * h + hash(e)` in 32-bit arithmetic, with `null` hashing to 0. |
| `JavaLang.SingleCharHashCode` | src/main/java/org/hyperledger/fabric/samples/assettransfer/PaymentOrder.java:130-142 | The `String.hashCode` of a one-character string in the Basic Multilingual Plane is that character's code. |
| `PaymentOrders.FromFields` | src/main/java/org/hyperledger/fabric/samples/assettransfer/PaymentOrder.java:44-70 | Building a record from thirteen values in constructor order gives a record whose fields are exactly those values. |
| `PaymentOrders.Equals` | src/main/java/org/hyperledger/fabric/samples/assettransfer/PaymentOrder.java:111-126 | `equals` holds exactly when the other object is a payment order with the same `swiftCode`. It is false for `null` and for objects of another class, whatever the other twelve fields are. |
| `PaymentOrders.EqualsIsEquivalence` | src/test/java/org/hyperledger/fabric/samples/assettransfer/PaymentOrderTest.java:17-42 | Equality is reflexive, symmetric and transitive. |
| `PaymentOrders.EqualsRejects` | src/test/java/org/hyperledger/fabric/samples/assettransfer/PaymentOrderTest.java:44-65 | A record is unequal to `null`, to a non-record object, and to a record with a different `swiftCode`. |
| `PaymentOrders.HashCodeSeesEveryField` | src/main/java/org/hyperledger/fabric/samples/assettransfer/PaymentOrder.java:128-143 | `hashCode` depends on every one of the thirteen fields. Changing any one field to a value with a different hash changes the record's hash. |
| `PaymentOrders.DateChangesHashCode` | src/main/java/org/hyperledger/fabric/samples/assettransfer/PaymentOrder.java:128-143 | Changing only the date of a record, to a value that hashes differently, changes the record's hash code. |
| `PaymentOrders.EqualRecordsWithDifferentHashCodes` | src/main/java/org/hyperledger/fabric/samples/assettransfer/PaymentOrder.java:111-143 | Some pair of records is equal but has different hash codes. Key-only equality does not determine the all-field hash. |
| `Codec.Encode` | src/main/java/org/hyperledger/fabric/samples/assettransfer/SwiftBc.java:89 | A serialized record is never the empty string, which the ledger reads as "no value". |
| `Codec.RoundTrip` | src/main/java/org/hyperledger/fabric/samples/assettransfer/SwiftBc.java:89-134 | Deserializing what serialization wrote gives back the same record, field for field. |
| `Codec.EncodeInjective` | src/main/java/org/hyperledger/fabric/samples/assettransfer/SwiftBc.java:89 | Different records are serialized to different strings. |
| `Codec.DecodeRejectsNonObject` | src/main/java/org/hyperledger/fabric/samples/assettransfer/SwiftBc.java:134 | A stored value that is not a JSON object, the empty string included, does not deserialize to a record. |
| `SwiftBc.ErrorPayloads` | src/main/java/org/hyperledger/fabric/samples/assettransfer/SwiftBc.java:38-42 | The payload of each exception is the name of its enum constant: `NOT_ENOUGH_PARAMETER`, `PAYMENTORDER_NOT_FOUND` or `PAYMENTORDER_ALREADY_EXISTS`. The three names are distinct. |
| `SwiftBc.ErrorMessagesIdentifyKey` | src/main/java/org/hyperledger/fabric/samples/assettransfer/SwiftBc.java:82-86 | The messages "The Payment Order (<k>) already exists" and "... does not exist", and "<name> is empty", name their subject: different keys or names give different exceptions. A not-found exception never equals an already-exists one. |
| `SwiftBc.FirstEmpty` | src/main/java/org/hyperledger/fabric/samples/assettransfer/SwiftBc.java:96-107 | The checks stop at the first rejected parameter. Every parameter before it passes, and it is rejected. |
| `SwiftBc.ValidationParam` | src/main/java/org/hyperledger/fabric/samples/assettransfer/SwiftBc.java:95-109 | Validation passes exactly when none of the twelve checked parameters is rejected, and passing implies a non-empty `swiftCode`. Any failure is a `NOT_ENOUGH_PARAMETER` exception. |
| `SwiftBc.ValidationReportsFirstEmpty` | src/main/java/org/hyperledger/fabric/samples/assettransfer/SwiftBc.java:96-113 | When the k-th check is the first to reject, validation throws `NOT_ENOUGH_PARAMETER` with the message "<name> is empty" for that parameter. |
| `SwiftBc.ValidationPassesIff` | src/main/java/org/hyperledger/fabric/samples/assettransfer/SwiftBc.java:95-115 | Validation passes if and only if all twelve checked parameters are non-null and non-empty and `amount` is not "0". |
| `SwiftBc.ZeroIsMissingOnlyForAmount` | src/main/java/org/hyperledger/fabric/samples/assettransfer/SwiftBc.java:111-115 | The value "0" is rejected for the parameter named `amount` and for no other. |
| `SwiftBc.AdditionalInstructionNotValidated` | src/main/java/org/hyperledger/fabric/samples/assettransfer/SwiftBc.java:80 | Validation ignores `additionalInstruction`. Its outcome is the same for any value, null and empty included. |
| `SwiftBc.IsEmptyCases` | src/main/java/org/hyperledger/fabric/samples/assettransfer/SwiftBc.java:111-115 | `null` and `""` are rejected for every parameter. Any other text is rejected exactly when it is "0" and the parameter is named `amount`. |
| `SwiftBc.CheckedParams` | src/main/java/org/hyperledger/fabric/samples/assettransfer/SwiftBc.java:96-107 | The k-th check is on the field at position `CheckOrder[k]` in constructor order, under that field's own property name. |
| `SwiftBc.CheckOrderCoversAllButAdditionalInstruction` | src/main/java/org/hyperledger/fabric/samples/assettransfer/SwiftBc.java:95-107 | Every field except `additionalInstruction` is checked, each exactly once. |
| `SwiftBc.ReceiverNameReportedBeforeAccount` | src/main/java/org/hyperledger/fabric/samples/assettransfer/SwiftBc.java:103-104 | When both receiver name and account are missing, the error names `receiverName`. |
| `SwiftBc.PaymentOrderExists` | src/main/java/org/hyperledger/fabric/samples/assettransfer/SwiftBc.java:146-151 | An order exists exactly when its key maps to a non-empty string. The ledger is only read. |
| `SwiftBc.ReadPaymentOrder` | src/main/java/org/hyperledger/fabric/samples/assettransfer/SwiftBc.java:125-136 | The result is `PAYMENTORDER_NOT_FOUND` with "The Payment Order (<k>) does not exist" exactly when no order exists under the key. When an order exists and its stored value deserializes, the result is that record. An existing value that does not deserialize gives a deserialization failure carrying that value, and only such a value does. The ledger is only read. |
| `SwiftBc.ReadMiss` | src/test/java/org/hyperledger/fabric/samples/assettransfer/SwiftBcTest.java:117-131 | A key never written reads as not found and does not exist. |
| `SwiftBc.ReadStored` | src/main/java/org/hyperledger/fabric/samples/assettransfer/SwiftBc.java:88-90 | A record serialized and written under a key reads back from that key unchanged. |
| `SwiftBc.ReadOtherKey` | src/main/java/org/hyperledger/fabric/samples/assettransfer/SwiftBc.java:125-136 | A write under one key does not change what is read under any other key. |
| `SwiftBc.CreateOutcome` | src/main/java/org/hyperledger/fabric/samples/assettransfer/SwiftBc.java:77-93 | A successful create returns a record equal to its arguments, and only arguments that pass validation succeed. |
| `SwiftBc.CreateRejectsMissingParameter` | src/main/java/org/hyperledger/fabric/samples/assettransfer/SwiftBc.java:80 | A validation failure is reported before the existence check, and the ledger is left unchanged. |
| `SwiftBc.CreateRejectsExisting` | src/main/java/org/hyperledger/fabric/samples/assettransfer/SwiftBc.java:82-86 | Valid arguments for a key that has an order throw `PAYMENTORDER_ALREADY_EXISTS` with "The Payment Order (<k>) already exists", and the ledger is left unchanged. |
| `SwiftBc.CreateSucceeds` | src/main/java/org/hyperledger/fabric/samples/assettransfer/SwiftBc.java:88-92 | Valid arguments for a free key return the record with all thirteen arguments as fields. The new ledger is the old one with the serialized record under that key, and every other key is unchanged. |
| `SwiftBc.CreateThenExists` | src/main/java/org/hyperledger/fabric/samples/assettransfer/SwiftBc.java:88-151 | After a successful create, `PaymentOrderExists` holds for its key. |
| `SwiftBc.CreateThenRead` | src/main/java/org/hyperledger/fabric/samples/assettransfer/SwiftBc.java:88-135 | After a successful create, `ReadPaymentOrder` of its key returns the created record, field for field. |
| `SwiftBc.SecondCreateRejected` | src/main/java/org/hyperledger/fabric/samples/assettransfer/SwiftBc.java:82-90 | After a successful create, a second create with the same key and any valid other fields throws `PAYMENTORDER_ALREADY_EXISTS` and leaves the ledger as the first create left it. |
| `SwiftBc.CreateTwoFresh` | src/main/java/org/hyperledger/fabric/samples/assettransfer/SwiftBc.java:77-93 | Two valid creates under distinct free keys both succeed. Afterwards each key holds its serialized record, and each record reads back unchanged. |
| `SwiftBc.CreatePaymentOrder` | src/main/java/org/hyperledger/fabric/samples/assettransfer/SwiftBc.java:77-93 | The method returns `CreateOutcome` of the old state and leaves `AfterCreate` of it. It logs exactly one write, of the serialized record under `swiftCode`, on success and none on failure. |
| `SwiftBc.SeedsAreValid` | src/main/java/org/hyperledger/fabric/samples/assettransfer/SwiftBc.java:53-54 | Both sample orders pass validation. |
| `SwiftBc.InitLedgerOnFreshLedger` | src/main/java/org/hyperledger/fabric/samples/assettransfer/SwiftBc.java:50-55 | On a ledger without either sample key, seeding succeeds and stores both sample records under their keys, and both read back unchanged. |
| `SwiftBc.InitLedgerFirstTaken` | src/main/java/org/hyperledger/fabric/samples/assettransfer/SwiftBc.java:50-53 | If `paymentOrder1` already exists, seeding throws `PAYMENTORDER_ALREADY_EXISTS` for it before any write. |
| `SwiftBc.InitLedgerSecondTaken` | src/main/java/org/hyperledger/fabric/samples/assettransfer/SwiftBc.java:53-54 | If only `paymentOrder2` exists, the first sample is written and seeding then throws `PAYMENTORDER_ALREADY_EXISTS` for the second. |
| `SwiftBc.InitLedger` | src/main/java/org/hyperledger/fabric/samples/assettransfer/SwiftBc.java:50-55 | The method matches `InitLedgerOutcome`. Its write log holds `paymentOrder1` then `paymentOrder2` on success, only the first when the second create fails, and nothing when the first fails. |
| `Ledger.Stub.PutStringState` | src/main/java/org/hyperledger/fabric/samples/assettransfer/SwiftBc.java:90 | A write replaces the value at its key, leaves every other key unchanged, and is appended to the write log. |

## Left out

- Fabric's `Context` and `ChaincodeStub` are reduced to a map-valued world state. A missing key reads as `null`. The contract treats `null` and `""` alike.
- `Codec` only stands in for the Genson JSON library. It does not reproduce Genson's exact output. Encoding is compact, with keys in declaration order, and escapes only `"` and `\`. Decoding accepts whitespace between tokens but requires exactly the thirteen keys in declaration order. Genson accepts any key order, other escapes and missing keys.
- Transaction atomicity, rollback and concurrent writers belong to the ledger. When the second create of `InitLedger` fails, the model keeps the first write in the state, where Fabric would discard the whole transaction.
- The contract annotations, the inherited `unknownTransaction`, and the `System.out.println` logging are left out. So are `toString` (a diagnostic string with the hash in hex) and the test mocks with their range iterator, which no transaction uses.
- The key argument of `ReadPaymentOrder` and `PaymentOrderExists` is a non-null string. What Fabric does with a `null` key is not modelled.
- That records identical in every field hash alike is not stated as a lemma. `HashCode` is a function of the record, so it holds by definition.
- Within one transaction, Fabric's `getStringState` does not see the transaction's own earlier `putStringState`; the model's reads see the current map. No modelled operation reads a key it has already written (`InitLedger` writes two different keys), so no modelled behaviour depends on the difference.
