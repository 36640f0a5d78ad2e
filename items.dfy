// Work-item names: the producers' "Item_<id>_<i>" strings and the decimal
// rendering (std::to_string on an int) they are built from.
module Items {

  /** The decimal digit character for a value 0..9. */
  function DigitChar(d: int): (c: char)
    requires 0 <= d < 10
    ensures '0' <= c <= '9'
  {
    (('0' as int) + d) as char
  }

  /** The value of a decimal digit character (0 for any other character). */
  function DigitValue(c: char): (d: nat)
    ensures d < 10
    ensures '0' <= c <= '9' ==> DigitChar(d) == c
  {
    if '0' <= c <= '9' then (c as int) - ('0' as int) else 0
  }

  predicate IsDigits(s: string) {
    forall k :: 0 <= k < |s| ==> '0' <= s[k] <= '9'
  }

  /** Decimal digits of a natural number, most significant first, no leading zeros. */
  function NatDigits(n: nat): (s: string)
    ensures |s| >= 1 && IsDigits(s)
    ensures (|s| > 1) == (n >= 10)
    decreases n
  {
    if n < 10 then [DigitChar(n)] else NatDigits(n / 10) + [DigitChar(n % 10)]
  }

  /** Reads a string of decimal digits back as a number. */
  function ParseDigits(s: string): nat
  {
    if |s| == 0 then 0 else ParseDigits(s[..|s| - 1]) * 10 + DigitValue(s[|s| - 1])
  }

  /** std::to_string for an int: a '-' sign for negatives, then the digits. */
  function IntToString(n: int): (s: string)
  {
    if n < 0 then "-" + NatDigits(-n) else NatDigits(n)
  }

  /** Reads back what IntToString wrote. */
  function ParseInt(s: string): int
  {
    if |s| > 0 && s[0] == '-' then 0 - ParseDigits(s[1..]) else ParseDigits(s)
  }

  lemma {:induction false} ParseNatDigits(n: nat)
    ensures ParseDigits(NatDigits(n)) == n
    decreases n
  {
    var s := NatDigits(n);
    if n >= 10 {
      var q, r := n / 10, n % 10;
      assert s == NatDigits(q) + [DigitChar(r)];
      assert s[..|s| - 1] == NatDigits(q);
      assert DigitValue(s[|s| - 1]) == r;
      ParseNatDigits(q);
      assert ParseDigits(s) == q * 10 + r;
    } else {
      assert DigitValue(s[0]) == n;
      assert s[..0] == [];
    }
  }

  /** Decoding the decimal rendering of any int gives the int back. */
  lemma ParseIntToString(n: int)
    ensures ParseInt(IntToString(n)) == n
  {
    var s := IntToString(n);
    if n < 0 {
      assert s[1..] == NatDigits(-n);
      ParseNatDigits(-n);
    } else {
      assert s[0] != '-';
      ParseNatDigits(n);
    }
  }

  /** A rendered int never contains the '_' separator of item names. */
  lemma IntToStringHasNoUnderscore(n: int)
    ensures '_' !in IntToString(n)
  {
    var s := IntToString(n);
    if n < 0 {
      assert s == "-" + NatDigits(-n);
      assert forall k :: 1 <= k < |s| ==> s[k] == NatDigits(-n)[k - 1];
    }
  }

  /** The item a producer makes: "Item_" + to_string(id) + "_" + to_string(i). */
  function ItemName(id: int, i: int): (r: string)
    ensures |r| > 5 && r[..5] == "Item_"
    ensures r != ""
  {
    "Item_" + IntToString(id) + "_" + IntToString(i)
  }

  lemma SplitAtUnderscore(a: string, b: string, a': string, b': string)
    requires '_' !in a && '_' !in a'
    requires a + "_" + b == a' + "_" + b'
    ensures a == a' && b == b'
  {
    var s := a + "_" + b;
    assert |a| == |a'| by {
      assert s[|a|] == '_' && s[|a'|] == '_';
    }
    assert a == s[..|a|] == a';
    assert b == s[|a| + 1..] == b';
  }

  /** Different (producer, sequence number) pairs always give different items. */
  lemma ItemNameInjective(id: int, i: int, id': int, i': int)
    requires ItemName(id, i) == ItemName(id', i')
    ensures id == id' && i == i'
  {
    var a, b, a', b' := IntToString(id), IntToString(i), IntToString(id'), IntToString(i');
    assert a + "_" + b == ItemName(id, i)[5..] by {
      assert ItemName(id, i) == "Item_" + (a + "_" + b);
    }
    assert a' + "_" + b' == ItemName(id', i')[5..] by {
      assert ItemName(id', i') == "Item_" + (a' + "_" + b');
    }
    IntToStringHasNoUnderscore(id);
    IntToStringHasNoUnderscore(id');
    SplitAtUnderscore(a, b, a', b');
    IntToStringInjective(id, id');
    IntToStringInjective(i, i');
  }

  lemma IntToStringInjective(x: int, y: int)
    requires IntToString(x) == IntToString(y)
    ensures x == y
  {
    ParseIntToString(x);
    ParseIntToString(y);
  }

  /** The items producer `id` makes, in order: Item_<id>_1 .. Item_<id>_<n>. */
  function ProducedItems(id: int, n: nat): (items: seq<string>)
    ensures |items| == n
  {
    seq(n, k requires 0 <= k < n => ItemName(id, k + 1))
  }

  /** ProducedItems grows one item at a time, at the back. */
  lemma ProducedItemsSnoc(id: int, n: nat)
    ensures ProducedItems(id, n + 1) == ProducedItems(id, n) + [ItemName(id, n + 1)]
  {
  }

  /** A producer never makes an empty item, and never makes the same item twice. */
  lemma ProducedItemsWellFormed(id: int, n: nat)
    ensures "" !in ProducedItems(id, n)
    ensures forall a, b :: 0 <= a < b < n ==> ProducedItems(id, n)[a] != ProducedItems(id, n)[b]
  {
    var items := ProducedItems(id, n);
    forall a, b | 0 <= a < b < n
      ensures items[a] != items[b]
    {
      DistinctRounds(id, a + 1, b + 1);
    }
  }

  lemma DistinctRounds(id: int, i: int, j: int)
    requires i != j
    ensures ItemName(id, i) != ItemName(id, j)
  {
    if ItemName(id, i) == ItemName(id, j) {
      ItemNameInjective(id, i, id, j);
    }
  }

  lemma DistinctProducers(id: int, id': int, i: int, j: int)
    requires id != id'
    ensures ItemName(id, i) != ItemName(id', j)
  {
    if ItemName(id, i) == ItemName(id', j) {
      ItemNameInjective(id, i, id', j);
    }
  }

  /** Items of two different producers never collide. */
  lemma ProducersDisjoint(id: int, id': int, n: nat, n': nat)
    requires id != id'
    ensures forall a, b :: 0 <= a < n && 0 <= b < n' ==> ProducedItems(id, n)[a] != ProducedItems(id', n')[b]
  {
    var items, items' := ProducedItems(id, n), ProducedItems(id', n');
    forall a, b | 0 <= a < n && 0 <= b < n'
      ensures items[a] != items'[b]
    {
      DistinctProducers(id, id', a + 1, b + 1);
    }
  }
}
