/** PHP values and PHP's ordered arrays, as far as the directory client and
    the record factories use them.

    A PHP array is an ordered map: assigning to a key that is already present
    replaces its value in place (the key keeps its original position), and
    assigning to a new key appends it.  Object properties of a `stdClass`
    behave the same way.  Both are modelled as a sequence of (key, value)
    pairs whose keys are kept distinct by `Put`. */
module Php {

  datatype Option<T> = None | Some(value: T)

  /** Keys of a PHP array: integers or strings. */
  datatype Key = IntKey(n: int) | StrKey(name: string)

  /** The PHP values handled by the core: null, booleans, integers, strings and
      (nested) arrays. */
  datatype Value = Null | Bool(b: bool) | Int(i: int) | Str(s: string) | Arr(items: seq<(Key, Value)>)

  /** The keys of an ordered map, in order. */
  function Keys<K, V>(m: seq<(K, V)>): (ks: seq<K>)
    ensures |ks| == |m|
  {
    seq(|m|, i requires 0 <= i < |m| => m[i].0)
  }

  /** The values of an ordered map, in order (PHP's `array_values`). */
  function Values<K, V>(m: seq<(K, V)>): (vs: seq<V>)
    ensures |vs| == |m|
  {
    seq(|m|, i requires 0 <= i < |m| => m[i].1)
  }

  predicate Distinct<K(==)>(ks: seq<K>) {
    forall i, j :: 0 <= i < j < |ks| ==> ks[i] != ks[j]
  }

  /** Position of the first occurrence of `k` in `ks`. */
  function IndexOf<K(==)>(ks: seq<K>, k: K): (r: Option<nat>)
    ensures r.Some? ==> r.value < |ks| && ks[r.value] == k
    ensures r.Some? ==> forall j :: 0 <= j < r.value ==> ks[j] != k
    ensures r.None? <==> k !in ks
  {
    if |ks| == 0 then None
    else if ks[0] == k then Some(0)
    else match IndexOf(ks[1..], k)
      case None => None
      case Some(i) => Some(i + 1)
  }

  /** `$m[$k] ?? null`, with absence made explicit. */
  function Lookup<K(==), V>(m: seq<(K, V)>, k: K): Option<V> {
    match IndexOf(Keys(m), k)
    case None => None
    case Some(i) => Some(m[i].1)
  }

  /** `$m[$k] = $v`: overwrite in place, or append a new key. */
  function Put<K(==), V>(m: seq<(K, V)>, k: K, v: V): seq<(K, V)> {
    match IndexOf(Keys(m), k)
    case Some(i) => m[i := (k, v)]
    case None => m + [(k, v)]
  }

  /** After `$m[$k] = $v` the key `k` holds `v`, it is new at the end
      when it was absent and keeps its place otherwise, and the keys stay
      distinct. */
  lemma PutEffect<K, V>(m: seq<(K, V)>, k: K, v: V)
    ensures Keys(Put(m, k, v)) == if k in Keys(m) then Keys(m) else Keys(m) + [k]
    ensures Lookup(Put(m, k, v), k) == Some(v)
    ensures Distinct(Keys(m)) ==> Distinct(Keys(Put(m, k, v)))
  {
    match IndexOf(Keys(m), k)
    case Some(i) =>
      assert Keys(m[i := (k, v)]) == Keys(m);
    case None =>
      assert Keys(m + [(k, v)]) == Keys(m) + [k];
  }

  /** `$m[$k] = $v` leaves every other key's value alone. */
  lemma PutOther<K, V>(m: seq<(K, V)>, k: K, v: V, j: K)
    requires j != k
    ensures Lookup(Put(m, k, v), j) == Lookup(m, j)
  {
    var r := Put(m, k, v);
    PutEffect(m, k, v);
    if k !in Keys(m) {
      match IndexOf(Keys(m), j)
      case None =>
      case Some(a) =>
        assert Keys(r)[a] == j;
    }
  }

  /** A sequence of assignments `$m[$k] = $v`, performed left to right. */
  function PutAll<K(==), V>(m: seq<(K, V)>, items: seq<(K, V)>): seq<(K, V)>
    decreases |items|
  {
    if |items| == 0 then m
    else
      var last := items[|items| - 1];
      Put(PutAll(m, items[..|items| - 1]), last.0, last.1)
  }

  /** The value of the last assignment to `k` among `items`. */
  function LastValue<K(==), V>(items: seq<(K, V)>, k: K): Option<V>
    decreases |items|
  {
    if |items| == 0 then None
    else if items[|items| - 1].0 == k then Some(items[|items| - 1].1)
    else LastValue(items[..|items| - 1], k)
  }

  /** `ks` followed by the keys of `added` that are new, each at its first
      occurrence. */
  function AppendNew<K(==)>(ks: seq<K>, added: seq<K>): seq<K>
    decreases |added|
  {
    if |added| == 0 then ks
    else
      var p := AppendNew(ks, added[..|added| - 1]);
      if added[|added| - 1] in p then p else p + [added[|added| - 1]]
  }

  /** Solver hint: the keys of a prefix are a prefix of the keys. */
  lemma KeysPrefix<K, V>(m: seq<(K, V)>, n: nat)
    requires n <= |m|
    ensures Keys(m[..n]) == Keys(m)[..n]
  {
  }

  /** After a run of assignments, each key holds the value of its last
      assignment; keys never assigned keep their old value. */
  lemma {:induction false} PutAllLookup<K, V>(m: seq<(K, V)>, items: seq<(K, V)>, k: K)
    ensures Lookup(PutAll(m, items), k) ==
      match LastValue(items, k)
      case None => Lookup(m, k)
      case Some(v) => Some(v)
    decreases |items|
  {
    if |items| > 0 {
      var last := items[|items| - 1];
      PutAllLookup(m, items[..|items| - 1], k);
      PutEffect(PutAll(m, items[..|items| - 1]), last.0, last.1);
      if last.0 != k {
        PutOther(PutAll(m, items[..|items| - 1]), last.0, last.1, k);
      }
    }
  }

  /** After a run of assignments the keys are the old keys followed by the
      new keys in order of first assignment. */
  lemma {:induction false} PutAllKeys<K, V>(m: seq<(K, V)>, items: seq<(K, V)>)
    ensures Keys(PutAll(m, items)) == AppendNew(Keys(m), Keys(items))
    decreases |items|
  {
    if |items| > 0 {
      var n := |items| - 1;
      PutAllKeys(m, items[..n]);
      PutEffect(PutAll(m, items[..n]), items[n].0, items[n].1);
      KeysPrefix(items, n);
      assert Keys(items)[..n] == Keys(items[..n]);
    }
  }

  /** Assignments never create a duplicate key. */
  lemma {:induction false} PutAllDistinct<K, V>(m: seq<(K, V)>, items: seq<(K, V)>)
    requires Distinct(Keys(m))
    ensures Distinct(Keys(PutAll(m, items)))
    decreases |items|
  {
    if |items| > 0 {
      var last := items[|items| - 1];
      PutAllDistinct(m, items[..|items| - 1]);
      PutEffect(PutAll(m, items[..|items| - 1]), last.0, last.1);
    }
  }

  /** Assigning the pairs of an array with distinct keys, one by one, into an
      empty map rebuilds exactly that array: same keys, same values, same
      order. */
  lemma {:induction false} PutAllRebuilds<K, V>(items: seq<(K, V)>)
    requires Distinct(Keys(items))
    ensures PutAll([], items) == items
    decreases |items|
  {
    if |items| > 0 {
      var n := |items| - 1;
      var init := items[..n];
      KeysPrefix(items, n);
      assert Distinct(Keys(init));
      PutAllRebuilds(init);
      forall j | 0 <= j < n ensures Keys(init)[j] != items[n].0 {
        assert Keys(init)[j] == Keys(items)[j] != Keys(items)[n] == items[n].0;
      }
      assert init + [items[n]] == items;
    }
  }

  function IsSpace(c: char): bool {
    c == ' ' || c == '\t' || c == '\n' || c == '\r' || c == '\U{0B}' || c == '\U{0C}'
  }

  function IsDigit(c: char): bool {
    '0' <= c <= '9'
  }

  predicate AllDigits(s: string) {
    forall i :: 0 <= i < |s| ==> IsDigit(s[i])
  }

  /** PHP's integers are 64 bits wide. */
  const INT_MAX: int := 0x7FFF_FFFF_FFFF_FFFF
  const INT_MIN: int := -0x8000_0000_0000_0000

  type Int64 = i: int | INT_MIN <= i <= INT_MAX

  /** Length of the run of decimal digits at the start of `s`. */
  function DigitRun(s: string): (n: nat)
    ensures n <= |s| && AllDigits(s[..n])
    ensures n < |s| ==> !IsDigit(s[n])
    decreases |s|
  {
    if |s| > 0 && IsDigit(s[0]) then
      var n := 1 + DigitRun(s[1..]);
      assert s[..n] == [s[0]] + s[1..][..n - 1];
      n
    else 0
  }

  /** The number a string of decimal digits writes, most significant
      first. */
  function DigitsValue(ds: string): nat
    requires AllDigits(ds)
    decreases |ds|
  {
    if |ds| == 0 then 0
    else DigitsValue(ds[..|ds| - 1]) * 10 + (ds[|ds| - 1] as int - '0' as int)
  }

  function Pow10(k: nat): (r: nat)
    ensures r >= 1
  {
    if k == 0 then 1 else 10 * Pow10(k - 1)
  }

  /** A decimal number `(-1)^negative * digits * 10^scale`. */
  datatype Decimal = Decimal(negative: bool, digits: string, scale: int)

  /** The exponent `e[+-]ddd` at the start of `s`: 0 when `s` does not
      start with `e` or `E` followed by at least one digit, possibly after
      a sign. */
  function Exponent(s: string): int {
    if |s| > 0 && (s[0] == 'e' || s[0] == 'E') then
      var u := s[1..];
      var v := if |u| > 0 && (u[0] == '-' || u[0] == '+') then u[1..] else u;
      var n := DigitRun(v);
      if n == 0 then 0
      else if u[0] == '-' then -(DigitsValue(v[..n]) as int)
      else DigitsValue(v[..n])
    else 0
  }

  /** The digits of a number, with the decimal point taken out: how many
      of them came after the point, and what follows them. */
  datatype Mantissa = Mantissa(digits: string, fractionDigits: nat, after: string)

  /** The digits at the start of `t`, with at most one decimal point among
      them and at least one digit.  `None` when `t` does not start with
      one. */
  function ReadMantissa(t: string): (r: Option<Mantissa>)
    ensures r.Some? ==> AllDigits(r.value.digits)
  {
    var i := DigitRun(t);
    if i < |t| && t[i] == '.' then
      var f := DigitRun(t[i + 1..]);
      if i == 0 && f == 0 then None
      else
        assert AllDigits(t[..i] + t[i + 1..][..f]);
        Some(Mantissa(t[..i] + t[i + 1..][..f], f, t[i + 1..][f..]))
    else if i == 0 then None
    else Some(Mantissa(t[..i], 0, t[i..]))
  }

  /** The leading numeric string of `s` (no white space before it): an
      optional sign, the mantissa, then an optional exponent.  `None` when
      `s` does not start with one. */
  function NumericPrefix(s: string): (r: Option<Decimal>)
    ensures r.Some? ==> AllDigits(r.value.digits)
  {
    var signed := |s| > 0 && (s[0] == '-' || s[0] == '+');
    match ReadMantissa(if signed then s[1..] else s)
    case None => None
    case Some(m) => Some(Decimal(signed && s[0] == '-', m.digits, Exponent(m.after) - m.fractionDigits))
  }

  /** The integer part of a decimal number: the digits shifted left, or
      the digits after the point dropped (truncation toward zero). */
  function Truncate(d: Decimal): int
    requires AllDigits(d.digits)
  {
    var m :=
      if d.scale >= 0 then DigitsValue(d.digits) * Pow10(d.scale)
      else if |d.digits| + d.scale <= 0 then 0
      else DigitsValue(d.digits[..|d.digits| + d.scale]);
    if d.negative then -m else m
  }

  /** The nearest 64-bit integer. */
  function Saturate(i: int): (r: Int64)
    ensures INT_MIN <= i <= INT_MAX ==> r == i
    ensures i > INT_MAX ==> r == INT_MAX
    ensures i < INT_MIN ==> r == INT_MIN
  {
    if i > INT_MAX then INT_MAX else if i < INT_MIN then INT_MIN else i
  }

  /** PHP 8's integer conversion of a string: leading white space is
      skipped and the leading numeric string is read, decimal point and
      exponent included, so that "2.5e1" converts to 25; its value is
      truncated toward zero and saturates at the 64-bit bounds; anything
      after it is ignored, and a string without one converts to 0. */
  function StringToInt(s: string): Int64
    decreases |s|
  {
    if |s| > 0 && IsSpace(s[0]) then StringToInt(s[1..])
    else match NumericPrefix(s)
      case None => 0
      case Some(d) => Saturate(Truncate(d))
  }

  /** PHP's `intval` (base 10). */
  function IntVal(v: Value): Int64 {
    match v
    case Null => 0
    case Bool(b) => if b then 1 else 0
    case Int(i) => Saturate(i)   // a PHP integer is already in range
    case Str(s) => StringToInt(s)
    case Arr(items) => if |items| == 0 then 0 else 1
  }

  /** PHP's decimal rendering of a natural number (no leading zeros). */
  function NatString(n: nat): (s: string)
    ensures |s| >= 1 && AllDigits(s)
    decreases n
  {
    if n < 10 then ['0' + n as char] else NatString(n / 10) + ['0' + (n % 10) as char]
  }

  /** PHP's decimal rendering of an integer, `strval($n)`. */
  function IntString(n: int): (s: string)
    ensures |s| >= 1
  {
    if n < 0 then "-" + NatString(-n) else NatString(n)
  }

  /** The digits of `NatString(n)` write `n`. */
  lemma {:induction false} NatStringValue(n: nat)
    ensures DigitsValue(NatString(n)) == n
    decreases n
  {
    if n >= 10 {
      NatStringValue(n / 10);
      var s := NatString(n);
      assert s[..|s| - 1] == NatString(n / 10);
    }
  }

  /** A run of digits followed by something that is not a digit. */
  lemma {:induction false} DigitRunOf(ds: string, tail: string)
    requires AllDigits(ds)
    requires tail == [] || !IsDigit(tail[0])
    ensures DigitRun(ds + tail) == |ds|
    decreases |ds|
  {
    if |ds| > 0 {
      assert (ds + tail)[1..] == ds[1..] + tail;
      DigitRunOf(ds[1..], tail);
    }
  }

  /** Nothing that cannot continue a number. */
  predicate EndsNumber(tail: string) {
    tail == [] || !(IsDigit(tail[0]) || tail[0] == '.' || tail[0] == 'e' || tail[0] == 'E')
  }

  /** Digits not followed by a decimal point are the whole mantissa. */
  lemma PlainMantissa(ds: string, tail: string)
    requires |ds| >= 1 && AllDigits(ds)
    requires tail == [] || !(IsDigit(tail[0]) || tail[0] == '.')
    ensures ReadMantissa(ds + tail) == Some(Mantissa(ds, 0, tail))
  {
    DigitRunOf(ds, tail);
    assert (ds + tail)[..|ds|] == ds;
    assert (ds + tail)[|ds|..] == tail;
  }

  /** A plain run of digits, signed or not, is read as an integer. */
  lemma IntegerPrefix(sign: string, ds: string, tail: string)
    requires sign == "" || sign == "-" || sign == "+"
    requires |ds| >= 1 && AllDigits(ds) && EndsNumber(tail)
    ensures NumericPrefix(sign + ds + tail) == Some(Decimal(sign == "-", ds, 0))
  {
    var s := sign + ds + tail;
    assert (if |s| > 0 && (s[0] == '-' || s[0] == '+') then s[1..] else s) == ds + tail by {
      if sign == "" { assert IsDigit(s[0]); } else { assert s[1..] == ds + tail; }
    }
    PlainMantissa(ds, tail);
    assert Exponent(tail) == 0;
  }

  /** `intval` reads back what `strval` writes, and ignores anything after
      the number that cannot continue it: `intval("42 apples") == 42`. */
  lemma IntValOfIntString(n: Int64, tail: string)
    requires EndsNumber(tail)
    ensures IntVal(Str(IntString(n) + tail)) == n
  {
    var m: nat := if n < 0 then -(n as int) else n as int;
    var s := IntString(n) + tail;
    var d := Decimal(n < 0, NatString(m), 0);
    assert NumericPrefix(s) == Some(d) by {
      var sign := if n < 0 then "-" else "";
      assert s == sign + NatString(m) + tail;
      IntegerPrefix(sign, NatString(m), tail);
    }
    assert Truncate(d) == n by {
      NatStringValue(m);
    }
    assert !IsSpace(s[0]);
  }

  /** `e` followed by digits is an exponent. */
  lemma ExponentOf(ks: string)
    requires |ks| >= 1 && AllDigits(ks)
    ensures Exponent("e" + ks) == DigitsValue(ks)
  {
    assert ("e" + ks)[1..] == ks;
    DigitRunOf(ks, []);
    assert ks + [] == ks;
    assert ks[..|ks|] == ks;
  }

  /** Solver hint: without a sign, the number is the mantissa and its
      exponent. Kept as a lemma so callers unfold NumericPrefix once. */
  lemma UnsignedPrefix(s: string, m: Mantissa)
    requires |s| > 0 && IsDigit(s[0]) && ReadMantissa(s) == Some(m)
    ensures NumericPrefix(s) == Some(Decimal(false, m.digits, Exponent(m.after) - m.fractionDigits))
  {
  }

  /** Digits not followed by a decimal point: an integer, scaled by the
      exponent the tail starts with, if any. */
  lemma DigitsPrefix(ds: string, tail: string)
    requires |ds| >= 1 && AllDigits(ds)
    requires tail == [] || !(IsDigit(tail[0]) || tail[0] == '.')
    ensures NumericPrefix(ds + tail) == Some(Decimal(false, ds, Exponent(tail)))
  {
    PlainMantissa(ds, tail);
    assert IsDigit((ds + tail)[0]);
    UnsignedPrefix(ds + tail, Mantissa(ds, 0, tail));
  }

  /** Digits, an `e` and more digits: the second run is the exponent. */
  lemma ScientificPrefix(ds: string, ks: string)
    requires |ds| >= 1 && AllDigits(ds) && |ks| >= 1 && AllDigits(ks)
    ensures NumericPrefix(ds + "e" + ks) == Some(Decimal(false, ds, DigitsValue(ks)))
  {
    var tail := "e" + ks;
    assert ds + "e" + ks == ds + tail;
    DigitsPrefix(ds, tail);
    assert NumericPrefix(ds + tail) == Some(Decimal(false, ds, Exponent(tail)));
    ExponentOf(ks);
    assert Exponent(tail) == DigitsValue(ks);
  }

  /** A number written with an exponent: `intval("<m>e<k>")` is `m` times
      `10^k`, saturated. */
  lemma IntValScientific(m: nat, k: nat)
    ensures IntVal(Str(NatString(m) + "e" + NatString(k))) == Saturate(m * Pow10(k))
  {
    var s := NatString(m) + "e" + NatString(k);
    var d := Decimal(false, NatString(m), k);
    assert NumericPrefix(s) == Some(d) by {
      NatStringValue(k);
      ScientificPrefix(NatString(m), NatString(k));
    }
    assert Truncate(d) == m * Pow10(k) by {
      NatStringValue(m);
    }
    assert !IsSpace(s[0]);
  }

  /** Digits, a decimal point and more digits: one number whose scale is
      minus the number of digits after the point. */
  lemma FractionPrefix(ds: string, fd: string)
    requires |ds| >= 1 && AllDigits(ds) && AllDigits(fd)
    ensures NumericPrefix(ds + "." + fd) == Some(Decimal(false, ds + fd, -|fd|))
  {
    var t := ds + "." + fd;
    assert ReadMantissa(t) == Some(Mantissa(ds + fd, |fd|, [])) by {
      assert t == ds + ("." + fd);
      DigitRunOf(ds, "." + fd);
      assert t[..|ds|] == ds;
      assert t[|ds| + 1..] == fd;
      DigitRunOf(fd, []);
      assert fd + [] == fd;
      assert fd[..|fd|] == fd;
      assert fd[|fd|..] == [];
    }
    assert IsDigit(t[0]);
    UnsignedPrefix(t, Mantissa(ds + fd, |fd|, []));
    assert Exponent([]) == 0;
  }

  lemma TruncateFraction(ds: string, fd: string)
    requires AllDigits(ds) && AllDigits(fd) && AllDigits(ds + fd)
    ensures Truncate(Decimal(false, ds + fd, -|fd|)) == DigitsValue(ds)
  {
    if |fd| == 0 {
      assert ds + fd == ds;
    } else if |ds| > 0 {
      assert (ds + fd)[..|ds|] == ds;
    }
  }

  /** Digits after a decimal point are dropped: `intval("<m>.<fd>")` is
      `m`, saturated. */
  lemma IntValDropsFraction(m: nat, fd: string)
    requires AllDigits(fd)
    ensures IntVal(Str(NatString(m) + "." + fd)) == Saturate(m)
  {
    var ds := NatString(m);
    var s := ds + "." + fd;
    FractionPrefix(ds, fd);
    TruncateFraction(ds, fd);
    NatStringValue(m);
    assert !IsSpace(s[0]);
  }

  lemma {:induction false} Pow10Add(a: nat, b: nat)
    ensures Pow10(a + b) == Pow10(a) * Pow10(b)
    decreases a
  {
    if a > 0 {
      Pow10Add(a - 1, b);
    }
  }

  /** `intval("1e3") == 1000`. */
  lemma IntValExponent()
    ensures IntVal(Str("1e3")) == 1000
  {
    assert NatString(1) == "1" && NatString(3) == "3";
    IntValScientific(1, 3);
    assert "1" + "e" + "3" == "1e3";
  }

  /** `intval("1e20")` is `PHP_INT_MAX`. */
  lemma IntValSaturates()
    ensures IntVal(Str("1e20")) == INT_MAX
  {
    assert NatString(1) == "1" && NatString(20) == "20";
    IntValScientific(1, 20);
    assert "1" + "e" + "20" == "1e20";
    assert Pow10(5) == 100000;
    Pow10Add(5, 5);
    Pow10Add(10, 10);
  }

  /** `intval("2.5e1") == 25`. */
  lemma IntValScaledFraction()
    ensures IntVal(Str("2.5e1")) == 25
  {
    var s := "2.5e1";
    assert DigitRun("e1") == 0;
    assert DigitRun("5e1") == 1;
    assert DigitRun(s) == 1;
    assert s[2..] == "5e1";
    assert s[..1] + "5e1"[..1] == "25";
    assert "5e1"[1..] == "e1";
    assert ReadMantissa(s) == Some(Mantissa("25", 1, "e1"));
    ExponentOf("1");
    assert "e" + "1" == "e1";
    assert "25"[..1] == "2";
    assert DigitsValue("25") == 25;
  }

  /** `intval("5s") == 5`. */
  lemma IntValUnitSuffix()
    ensures IntVal(Str("5s")) == 5
  {
    assert IntString(5) == "5";
    IntValOfIntString(5, "s");
    assert "5" + "s" == "5s";
  }

  /** `intval("7.9") == 7`. */
  lemma IntValTruncates()
    ensures IntVal(Str("7.9")) == 7
  {
    assert NatString(7) == "7";
    IntValDropsFraction(7, "9");
    assert "7" + "." + "9" == "7.9";
  }

  /** `intval("apples") == 0` and `intval(true) == 1`. */
  lemma IntValNonNumeric()
    ensures IntVal(Str("apples")) == 0
    ensures IntVal(Bool(true)) == 1
  {
    assert DigitRun("apples") == 0;
  }
}
