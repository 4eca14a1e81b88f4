/** The payment-order record: thirteen strings fixed at construction, equal by
    reference number (`swiftCode`) alone, hashed over all thirteen. */
module PaymentOrders {
  import opened Wrappers
  import opened JavaLang

  /** An immutable payment order. Each field is read back by the accessor of
      the same name exactly as it was passed to the constructor; any of them
      may be `null` as far as the record itself is concerned. */
  datatype PaymentOrder = PaymentOrder(
    swiftCode: JString,              // reference number, the ledger key
    date: JString,
    amount: JString,
    currency: JString,
    ordererName: JString,
    ordererAddress: JString,
    ordererId: JString,              // orderer's customer number
    receiverAccount: JString,
    receiverName: JString,
    receiverAddress: JString,
    remittanceInformation: JString,  // purpose of the remittance
    additionalInstruction: JString,
    chargeDetail: JString            // who bears the charges
  )

  /** The property names, in declaration order. */
  const FieldNames: seq<string> := [
    "swiftCode", "date", "amount", "currency", "ordererName", "ordererAddress",
    "ordererId", "receiverAccount", "receiverName", "receiverAddress",
    "remittanceInformation", "additionalInstruction", "chargeDetail"
  ]

  /** The field values, in declaration order (also the argument order of
      `Objects.hash` in `hashCode`). */
  function Fields(po: PaymentOrder): (vs: seq<JString>)
    ensures |vs| == |FieldNames|
  {
    [po.swiftCode, po.date, po.amount, po.currency, po.ordererName, po.ordererAddress,
     po.ordererId, po.receiverAccount, po.receiverName, po.receiverAddress,
     po.remittanceInformation, po.additionalInstruction, po.chargeDetail]
  }

  /** The record whose fields, in declaration order, are `vs`. */
  function FromFields(vs: seq<JString>): (po: PaymentOrder)
    requires |vs| == |FieldNames|
    ensures Fields(po) == vs
  {
    PaymentOrder(vs[0], vs[1], vs[2], vs[3], vs[4], vs[5], vs[6],
                 vs[7], vs[8], vs[9], vs[10], vs[11], vs[12])
  }

  /** A record is rebuilt exactly from its field list. */
  lemma FromFieldsOfFields(po: PaymentOrder)
    ensures FromFields(Fields(po)) == po
  {
  }

  /** What `equals(Object)` may be handed. */
  datatype JavaObject = Null | Order(order: PaymentOrder) | OtherObject

  /** `equals`: `null` and objects of another class are unequal; otherwise the
      one-element arrays holding the two reference numbers are compared with
      `Objects.deepEquals`. (The leading `this == obj` shortcut compares
      references; identical records have the same reference number, so the
      value model needs no separate case for it.) */
  predicate Equals(self: PaymentOrder, obj: JavaObject)
    ensures Equals(self, obj) <==> obj.Order? && obj.order.swiftCode == self.swiftCode
  {
    match obj
    case Null => false
    case OtherObject => false
    case Order(other) => DeepEquals([self.swiftCode], [other.swiftCode])
  }

  /** `hashCode`: `Objects.hash` over all thirteen fields. */
  function HashCode(po: PaymentOrder): int32
  {
    ObjectsHash(Fields(po))
  }

  /** Equality is an equivalence relation on records, whatever their other
      twelve fields. */
  lemma EqualsIsEquivalence(a: PaymentOrder, b: PaymentOrder, c: PaymentOrder)
    ensures Equals(a, Order(a))
    ensures Equals(a, Order(b)) <==> Equals(b, Order(a))
    ensures Equals(a, Order(b)) && Equals(b, Order(c)) ==> Equals(a, Order(c))
  {
  }

  /** A record equals neither `null` nor an object of another class, and
      records with different reference numbers are unequal. */
  lemma EqualsRejects(a: PaymentOrder, b: PaymentOrder)
    ensures !Equals(a, Null) && !Equals(a, OtherObject)
    ensures a.swiftCode != b.swiftCode ==> !Equals(a, Order(b))
  {
  }

  /** The hash reads every field: two records that agree on all fields but
      the `i`-th, where the values hash differently, get different hash
      codes. */
  lemma HashCodeSeesEveryField(a: PaymentOrder, b: PaymentOrder, i: nat)
    requires i < |FieldNames|
    requires forall k :: 0 <= k < |FieldNames| && k != i ==> Fields(a)[k] == Fields(b)[k]
    requires ElementHash(Fields(a)[i]) != ElementHash(Fields(b)[i])
    ensures HashCode(a) != HashCode(b)
  {
    ObjectsHashSeesEveryElement(Fields(a), Fields(b), i);
  }

  /** In particular, changing only the date to one that hashes differently
      changes the hash code. */
  lemma DateChangesHashCode(a: PaymentOrder, d: JString)
    requires ElementHash(a.date) != ElementHash(d)
    ensures HashCode(a) != HashCode(a.(date := d))
  {
    var b := a.(date := d);
    assert forall k :: 0 <= k < |FieldNames| && k != 1 ==> Fields(a)[k] == Fields(b)[k];
    HashCodeSeesEveryField(a, b, 1);
  }

  /** Equality does not fix the hash: two records with the same reference
      number but different dates are equal, yet hash differently, so the pair
      breaks the rule that equal objects have equal hash codes. */
  lemma EqualRecordsWithDifferentHashCodes()
    ensures exists a: PaymentOrder, b: PaymentOrder :: Equals(a, Order(b)) && HashCode(a) != HashCode(b)
  {
    var a := PaymentOrder(Some("paymentOrder1"), Some("d"), None, None, None, None, None,
                          None, None, None, None, None, None);
    var b := a.(date := Some("k"));
    SingleCharHashCode('d');
    SingleCharHashCode('k');
    DateChangesHashCode(a, Some("k"));
    assert Equals(a, Order(b)) && HashCode(a) != HashCode(b);
  }
}
