/** The few pieces of the Java platform that the payment-order record leans on:
    nullable strings, `int` arithmetic that wraps at 32 bits, `String.hashCode`,
    `Objects.hash` and `Objects.deepEquals` on string arrays. */
module JavaLang {
  import opened Wrappers

  /** A Java `String` reference: `None` is `null`. */
  type JString = Option<string>

  const TwoTo32: int := 0x1_0000_0000
  const TwoTo31: int := 0x8000_0000

  /** Java's `int`. */
  newtype int32 = x: int | -0x8000_0000 <= x < 0x8000_0000

  /** The `int` that Java arithmetic produces for the mathematical value `x`:
      the one value in range that is congruent to `x` modulo 2^32. */
  function Wrap32(x: int): (r: int32)
    ensures (r as int - x) % TwoTo32 == 0
  {
    ((x + TwoTo31) % TwoTo32 - TwoTo31) as int32
  }

  /** The UTF-16 code units of a string, the `char`s Java sees; a character
      outside the Basic Multilingual Plane is a surrogate pair. */
  function Utf16Units(s: string): (u: seq<int>)
    ensures forall k :: 0 <= k < |u| ==> 0 <= u[k] < 0x1_0000
    ensures |s| <= |u| <= 2 * |s|
    ensures s != [] && s[0] as int < 0x1_0000 ==> u[0] == s[0] as int
    ensures s != [] && s[0] as int >= 0x1_0000 ==>
      |u| >= 2 && u[0] == 0xD800 + (s[0] as int - 0x1_0000) / 0x400 && u[1] == 0xDC00 + (s[0] as int - 0x1_0000) % 0x400
    ensures (forall k :: 0 <= k < |s| ==> s[k] as int < 0x1_0000) ==>
      |u| == |s| && forall k :: 0 <= k < |s| ==> u[k] == s[k] as int
  {
    if s == [] then [] else CharUnits(s[0]) + Utf16Units(s[1..])
  }

  /** The code units of one character: itself in the Basic Multilingual
      Plane, otherwise its surrogate pair. */
  function CharUnits(ch: char): seq<int>
  {
    var c := ch as int;
    if c < 0x1_0000 then [c]
    else [0xD800 + (c - 0x1_0000) / 0x400, 0xDC00 + (c - 0x1_0000) % 0x400]
  }

  /** The units of a string are the units of its characters, one after the
      other; with the clauses on the first character, this fixes every
      unit. */
  lemma {:induction false} Utf16UnitsAppend(s: string, t: string)
    ensures Utf16Units(s + t) == Utf16Units(s) + Utf16Units(t)
    decreases |s|
  {
    if s == [] {
      assert s + t == t;
    } else {
      ConsAppend(s, t);
      Utf16UnitsCons(s + t);
      Utf16UnitsCons(s);
      Utf16UnitsAppend(s[1..], t);
      ConcatAssoc(CharUnits(s[0]), Utf16Units(s[1..]), Utf16Units(t));
    }
  }

  lemma ConsAppend<T>(s: seq<T>, t: seq<T>)
    requires s != []
    ensures (s + t)[0] == s[0] && (s + t)[1..] == s[1..] + t
  {
  }

  lemma Utf16UnitsCons(s: string)
    requires s != []
    ensures Utf16Units(s) == CharUnits(s[0]) + Utf16Units(s[1..])
  {
  }

  lemma ConcatAssoc<T>(a: seq<T>, b: seq<T>, c: seq<T>)
    ensures (a + b) + c == a + (b + c)
  {
  }

  /** The loop shared by `String.hashCode` and `Arrays.hashCode`:
      `for (x : xs) h = 31 * h + x;` on a 32-bit `int`. */
  function HashFold(h: int32, xs: seq<int>): int32
    decreases xs
  {
    if xs == [] then h else HashFold(Wrap32(31 * h as int + xs[0]), xs[1..])
  }

  /** `String.hashCode`: starts from 0 over the UTF-16 units. */
  function StringHashCode(s: string): int32
  {
    HashFold(0, Utf16Units(s))
  }

  /** The hash `Objects.hash` takes of one element: 0 for `null`. */
  function ElementHash(v: JString): int32
  {
    match v
    case None => 0
    case Some(s) => StringHashCode(s)
  }

  function ElementHashes(vs: seq<JString>): (hs: seq<int>)
    ensures |hs| == |vs|
    ensures forall k :: 0 <= k < |vs| ==> hs[k] == ElementHash(vs[k]) as int
  {
    seq(|vs|, k requires 0 <= k < |vs| => ElementHash(vs[k]) as int)
  }

  /** `Objects.hash(values...)`, that is `Arrays.hashCode`: starts from 1. */
  function ObjectsHash(vs: seq<JString>): int32
  {
    HashFold(1, ElementHashes(vs))
  }

  /** `Objects.deepEquals` on two `String[]`: same length and, position by
      position, both null or equal strings. */
  predicate DeepEquals(xs: seq<JString>, ys: seq<JString>)
    ensures DeepEquals(xs, ys) <==> xs == ys
  {
    |xs| == |ys| && forall k :: 0 <= k < |xs| ==> xs[k] == ys[k]
  }

  /** Two mathematical values give the same Java `int` exactly when they are
      congruent modulo 2^32. */
  lemma WrapEqual(x: int, y: int)
    ensures Wrap32(x) == Wrap32(y) <==> (x - y) % TwoTo32 == 0
  {
    var qx, qy := (x + TwoTo31) / TwoTo32, (y + TwoTo31) / TwoTo32;
    var rx, ry := (x + TwoTo31) % TwoTo32, (y + TwoTo31) % TwoTo32;
    assert x - y == (qx - qy) * TwoTo32 + (rx - ry);
    if rx == ry {
      assert (x - y) % TwoTo32 == 0 by { ModOfMultiple(qx - qy); }
    } else {
      if (x - y) % TwoTo32 == 0 {
        assert false;
      }
    }
  }

  lemma ModOfMultiple(k: int)
    ensures (k * TwoTo32) % TwoTo32 == 0
  {
  }

  /** One step of the hash loop forgets nothing: 31 is odd, hence invertible
      modulo 2^32 (its inverse is 3186588639 = (1 + 23 * 2^32) / 31). */
  lemma StepInjective(h1: int32, h2: int32, c: int)
    requires Wrap32(31 * h1 as int + c) == Wrap32(31 * h2 as int + c)
    ensures h1 == h2
  {
    var d := h1 as int - h2 as int;
    WrapEqual(31 * h1 as int + c, 31 * h2 as int + c);
    assert (31 * d) % TwoTo32 == 0;
    var q := (31 * d) / TwoTo32;
    assert 31 * d == q * TwoTo32;
    assert d == (3186588639 * q - 23 * d) * TwoTo32 by {
      assert 3186588639 * (31 * d) == 3186588639 * q * TwoTo32;
    }
  }

  /** One step of the hash loop tells apart two elements whose hashes differ
      (and so differ by less than 2^32). */
  lemma StepDistinguishes(h: int32, c1: int32, c2: int32)
    requires c1 != c2
    ensures Wrap32(31 * h as int + c1 as int) != Wrap32(31 * h as int + c2 as int)
  {
    WrapEqual(31 * h as int + c1 as int, 31 * h as int + c2 as int);
    var d := c1 as int - c2 as int;
    if d % TwoTo32 == 0 {
      assert false;
    }
  }

  lemma {:induction false} HashFoldInjective(h1: int32, h2: int32, xs: seq<int>)
    requires HashFold(h1, xs) == HashFold(h2, xs)
    ensures h1 == h2
    decreases xs
  {
    if xs != [] {
      HashFoldInjective(Wrap32(31 * h1 as int + xs[0]), Wrap32(31 * h2 as int + xs[0]), xs[1..]);
      StepInjective(h1, h2, xs[0]);
    }
  }

  lemma {:induction false} HashFoldAppend(h: int32, p: seq<int>, q: seq<int>)
    ensures HashFold(h, p + q) == HashFold(HashFold(h, p), q)
    decreases p
  {
    if p == [] {
      assert p + q == q;
    } else {
      assert (p + q)[0] == p[0] && (p + q)[1..] == p[1..] + q;
      HashFoldAppend(Wrap32(31 * h as int + p[0]), p[1..], q);
    }
  }

  /** `Arrays.hashCode` as its loop is written: 1 for no elements, and each
      further element `e` turns the result `h` into `31 * h + hash(e)`. */
  lemma {:induction false} ObjectsHashSnoc(vs: seq<JString>, v: JString)
    ensures ObjectsHash([]) == 1
    ensures ObjectsHash(vs + [v]) == Wrap32(31 * ObjectsHash(vs) as int + ElementHash(v) as int)
  {
    assert ElementHashes(vs + [v]) == ElementHashes(vs) + [ElementHash(v) as int];
    HashFoldAppend(1, ElementHashes(vs), [ElementHash(v) as int]);
    assert [ElementHash(v) as int][1..] == [];
  }

  /** Folding over `p`, then one element, then `q`. */
  lemma HashFoldSplit(h: int32, p: seq<int>, x: int, q: seq<int>)
    ensures HashFold(h, p + ([x] + q)) == HashFold(Wrap32(31 * HashFold(h, p) as int + x), q)
  {
    HashFoldAppend(h, p, [x] + q);
    assert ([x] + q)[0] == x && ([x] + q)[1..] == q;
  }

  /** Folding over `xs` passes through position `i` in one step. */
  lemma HashFoldAt(h: int32, xs: seq<int>, i: nat)
    requires i < |xs|
    ensures HashFold(h, xs) == HashFold(Wrap32(31 * HashFold(h, xs[..i]) as int + xs[i]), xs[i + 1..])
  {
    assert xs == xs[..i] + ([xs[i]] + xs[i + 1..]);
    HashFoldSplit(h, xs[..i], xs[i], xs[i + 1..]);
  }

  lemma ElementHashesAgreeOutside(vs: seq<JString>, ws: seq<JString>, i: nat)
    requires |vs| == |ws| && i < |vs|
    requires forall k :: 0 <= k < |vs| && k != i ==> vs[k] == ws[k]
    ensures ElementHashes(vs)[..i] == ElementHashes(ws)[..i]
    ensures ElementHashes(vs)[i + 1..] == ElementHashes(ws)[i + 1..]
  {
  }

  /** `Objects.hash` depends on every position: two argument lists that agree
      everywhere except at position `i`, where the elements hash differently,
      hash differently. */
  lemma ObjectsHashSeesEveryElement(vs: seq<JString>, ws: seq<JString>, i: nat)
    requires |vs| == |ws| && i < |vs|
    requires forall k :: 0 <= k < |vs| && k != i ==> vs[k] == ws[k]
    requires ElementHash(vs[i]) != ElementHash(ws[i])
    ensures ObjectsHash(vs) != ObjectsHash(ws)
  {
    var ev, ew := ElementHashes(vs), ElementHashes(ws);
    ElementHashesAgreeOutside(vs, ws, i);
    HashFoldAt(1, ev, i);
    HashFoldAt(1, ew, i);
    var h := HashFold(1, ev[..i]);
    StepDistinguishes(h, ElementHash(vs[i]), ElementHash(ws[i]));
    if ObjectsHash(vs) == ObjectsHash(ws) {
      HashFoldInjective(Wrap32(31 * h as int + ev[i]), Wrap32(31 * h as int + ew[i]), ev[i + 1..]);
    }
  }

  /** A one-character string in the Basic Multilingual Plane hashes to its
      character code. */
  lemma SingleCharHashCode(c: char)
    requires c as int < 0x1_0000
    ensures StringHashCode([c]) == c as int as int32
  {
    assert [c][1..] == [];
    assert Utf16Units([c]) == [c as int];
    assert HashFold(0, [c as int]) == Wrap32(c as int);
  }
}
