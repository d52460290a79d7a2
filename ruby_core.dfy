/**
 * The parts of Ruby's core library that the configuration wrapper relies on:
 * values and their truthiness, `case`/`when` matching, `String#split` with no
 * argument, `Kernel#Integer` and `String#to_i` on decimal text, and the
 * insertion-ordered `Hash`.
 */
module RubyCore {
  import opened Common

  /** The Ruby values that reach the wrapper: nil, a String, an Integer, true or false. */
  datatype Value = Nil | Str(s: string) | Int(i: int) | Bool(b: bool)

  /** Only `nil` and `false` are falsy in Ruby; `0` and `""` are truthy. */
  predicate Truthy(v: Value)
  {
    !(v.Nil? || v == Bool(false))
  }

  /** Ruby's `a || b`: the left operand when it is truthy, otherwise the right one. */
  function Or(a: Value, b: Value): Value
  {
    if Truthy(a) then a else b
  }

  /**
   * `pattern === v`, the test a `when pattern` arm performs on the subject of
   * a `case`. For true, false, nil, Integer and String patterns this is `==`.
   */
  predicate CaseEq(pattern: Value, v: Value)
  {
    pattern == v
  }

  /** How JRuby hands a Java `String` result (or `null`) to Ruby code. */
  function FromJava(o: Option<string>): (v: Value)
    ensures v.Nil? || v.Str?
  {
    match o
    case None => Nil
    case Some(s) => Str(s)
  }

  // ---------------------------------------------------------------------------
  // String#split with no argument ("awk" mode)

  /** The ASCII whitespace `String#split` separates on: space, \t, \n, \v, \f, \r. */
  predicate IsSpace(c: char)
  {
    c == ' ' || c == '\t' || c == '\n' || c == '\r' || c as int == 11 || c as int == 12
  }

  /** A non-empty run of characters without whitespace: what `split` yields. */
  predicate IsWord(w: string)
  {
    |w| > 0 && forall i :: 0 <= i < |w| ==> !IsSpace(w[i])
  }

  /** The length of the longest whitespace-free prefix of `s`. */
  function WordLength(s: string): (n: nat)
    ensures n <= |s|
    ensures forall i :: 0 <= i < n ==> !IsSpace(s[i])
    ensures n < |s| ==> IsSpace(s[n])
  {
    if s == [] || IsSpace(s[0]) then 0 else 1 + WordLength(s[1..])
  }

  /**
   * `s.split`: the maximal whitespace-free runs of `s`, in order; leading,
   * trailing and repeated whitespace produce no empty fields.
   */
  function Split(s: string): (words: seq<string>)
    ensures forall i :: 0 <= i < |words| ==> IsWord(words[i])
    decreases |s|
  {
    if s == [] then []
    else if IsSpace(s[0]) then Split(s[1..])
    else
      var n := WordLength(s);
      [s[..n]] + Split(s[n..])
  }

  /** `words.join(" ")`. */
  function Join(words: seq<string>): string
  {
    if |words| == 0 then ""
    else if |words| == 1 then words[0]
    else words[0] + " " + Join(words[1..])
  }

  /** A word followed by whitespace (or by nothing) is split off as one field. */
  lemma SplitWordThen(w: string, rest: string)
    requires IsWord(w)
    requires rest == [] || IsSpace(rest[0])
    ensures Split(w + rest) == [w] + Split(rest)
  {
    var s := w + rest;
    var n := WordLength(s);
    assert forall i :: 0 <= i < |w| ==> s[i] == w[i];
    assert rest != [] ==> s[|w|] == rest[0];
    assert n == |w|;
    assert s[..n] == w;
    assert s[n..] == rest;
  }

  /** A word followed by a non-empty run of whitespace is split off, and the run is dropped. */
  lemma SplitWordSep(w: string, sep: string, rest: string)
    requires IsWord(w) && AllSpace(sep) && sep != []
    ensures Split(w + sep + rest) == [w] + Split(rest)
  {
    assert w + sep + rest == w + (sep + rest);
    SplitWordThen(w, sep + rest);
    SplitSkipsLeadingSpace(sep, rest);
  }

  /** Every character of `ws` is whitespace (`ws` may be empty). */
  predicate AllSpace(ws: string)
  {
    forall i :: 0 <= i < |ws| ==> IsSpace(ws[i])
  }

  /**
   * The words interleaved with their separators: `words[0] + seps[0] +
   * words[1] + seps[1] + ...`; the last separator is trailing text.
   */
  function Spread(words: seq<string>, seps: seq<string>): string
    requires |seps| == |words|
  {
    if words == [] then "" else words[0] + seps[0] + Spread(words[1..], seps[1..])
  }

  /**
   * Splitting recovers the words of a text made of words separated by
   * non-empty whitespace runs, whatever the runs and the trailing whitespace.
   */
  lemma {:induction false} SplitSpread(words: seq<string>, seps: seq<string>)
    requires |seps| == |words|
    requires forall i :: 0 <= i < |words| ==> IsWord(words[i])
    requires forall i :: 0 <= i < |seps| ==> AllSpace(seps[i])
    requires forall i :: 0 <= i < |seps| - 1 ==> seps[i] != []
    ensures Split(Spread(words, seps)) == words
  {
    if |words| == 1 {
      assert Spread(words, seps) == words[0] + seps[0] + "";
      assert words[0] + seps[0] + "" == words[0] + seps[0];
      SplitWordThen(words[0], seps[0]);
      SplitSkipsLeadingSpace(seps[0], "");
      assert seps[0] + "" == seps[0];
    } else if |words| > 1 {
      SplitWordSep(words[0], seps[0], Spread(words[1..], seps[1..]));
      SplitSpread(words[1..], seps[1..]);
    }
  }

  /** The separators `Join` puts after `n` words: single spaces, and nothing after the last. */
  function SingleSpaces(n: nat): (seps: seq<string>)
    ensures |seps| == n
    ensures forall i :: 0 <= i < n ==> seps[i] == if i < n - 1 then " " else ""
  {
    if n == 0 then [] else if n == 1 then [""] else [" "] + SingleSpaces(n - 1)
  }

  /** Joining with single spaces is spreading the words over single-space separators. */
  lemma {:induction false} JoinIsSpread(words: seq<string>)
    ensures Join(words) == Spread(words, SingleSpaces(|words|))
  {
    if |words| == 1 {
      assert Spread(words, [""]) == words[0] + "" + Spread([], []);
    } else if |words| > 1 {
      var seps := SingleSpaces(|words|);
      assert seps[1..] == SingleSpaces(|words| - 1);
      JoinIsSpread(words[1..]);
    }
  }

  /** Splitting undoes joining with single spaces, for fields `split` could produce. */
  lemma SplitJoin(words: seq<string>)
    requires forall i :: 0 <= i < |words| ==> IsWord(words[i])
    ensures Split(Join(words)) == words
  {
    var seps := SingleSpaces(|words|);
    JoinIsSpread(words);
    assert forall i :: 0 <= i < |seps| ==> AllSpace(seps[i]);
    assert forall i :: 0 <= i < |seps| - 1 ==> seps[i] != [];
    SplitSpread(words, seps);
  }

  /** `split` finds no word exactly when the text is all whitespace. */
  lemma {:induction false} SplitEmpty(s: string)
    ensures Split(s) == [] <==> AllSpace(s)
  {
    if s != [] && IsSpace(s[0]) {
      SplitEmpty(s[1..]);
      assert AllSpace(s) <==> AllSpace(s[1..]);
    }
  }

  /** Leading whitespace never changes what `split` returns. */
  lemma {:induction false} SplitSkipsLeadingSpace(ws: string, s: string)
    requires forall i :: 0 <= i < |ws| ==> IsSpace(ws[i])
    ensures Split(ws + s) == Split(s)
  {
    if ws == [] {
      assert ws + s == s;
    } else {
      assert (ws + s)[1..] == ws[1..] + s;
      SplitSkipsLeadingSpace(ws[1..], s);
    }
  }

  // ---------------------------------------------------------------------------
  // Decimal integers: Kernel#Integer, String#to_i and Integer#to_s

  predicate IsDigit(c: char)
  {
    '0' <= c <= '9'
  }

  predicate AllDigits(s: string)
  {
    forall i :: 0 <= i < |s| ==> IsDigit(s[i])
  }

  function DigitValue(c: char): nat
    requires IsDigit(c)
  {
    (c as int) - ('0' as int)
  }

  function DigitChar(d: nat): (c: char)
    requires d < 10
    ensures IsDigit(c) && DigitValue(c) == d
  {
    ('0' as int + d) as char
  }

  /** The number a string of decimal digits denotes (most significant digit first). */
  function DigitsValue(s: string): nat
    requires AllDigits(s)
  {
    if s == [] then 0 else 10 * DigitsValue(s[..|s| - 1]) + DigitValue(s[|s| - 1])
  }

  /** The number of decimal digits at the start of `s`. */
  function LeadingDigits(s: string): (n: nat)
    ensures n <= |s| && AllDigits(s[..n])
    ensures n < |s| ==> !IsDigit(s[n])
  {
    if s != [] && IsDigit(s[0]) then
      var m := LeadingDigits(s[1..]);
      assert s[..1 + m] == [s[0]] + s[1..][..m];
      1 + m
    else 0
  }

  /** The errors `Kernel#Integer` raises. */
  datatype IntegerError = ArgumentError | TypeError

  /**
   * The integer a String denotes under `Kernel#Integer`, restricted to an
   * optional sign followed by one or more decimal digits.
   */
  function DecimalLiteral(s: string): Option<int>
  {
    if |s| > 0 && (s[0] == '-' || s[0] == '+') then
      var body := s[1..];
      if |body| > 0 && AllDigits(body) then
        Some(if s[0] == '-' then -(DigitsValue(body) as int) else DigitsValue(body))
      else None
    else if |s| > 0 && AllDigits(s) then Some(DigitsValue(s))
    else None
  }

  /**
   * `Integer(v)`: an Integer is returned as it is; a String is parsed or
   * raises ArgumentError; nil, true and false raise TypeError.
   */
  function KernelInteger(v: Value): Result<int, IntegerError>
  {
    match v
    case Int(n) => Success(n)
    case Str(s) =>
      (match DecimalLiteral(s)
       case Some(n) => Success(n)
       case None => Failure(ArgumentError))
    case Nil => Failure(TypeError)
    case Bool(_) => Failure(TypeError)
  }

  /** The characters of `s` after its leading whitespace. */
  function DropSpaces(s: string): (t: string)
    ensures |t| <= |s| && t == s[|s| - |t|..]
    ensures t == [] || !IsSpace(t[0])
  {
    if s != [] && IsSpace(s[0]) then DropSpaces(s[1..]) else s
  }

  /**
   * `String#to_i` (and `nil.to_i`, which is 0): skip leading whitespace, take an
   * optional sign and the longest run of digits after it; 0 when there are none.
   */
  function ToI(o: Option<string>): int
  {
    match o
    case None => 0
    case Some(s) =>
      var t := DropSpaces(s);
      if |t| > 0 && (t[0] == '-' || t[0] == '+') then
        var body := t[1..];
        var m: int := DigitsValue(body[..LeadingDigits(body)]);
        if t[0] == '-' then -m else m
      else DigitsValue(t[..LeadingDigits(t)])
  }

  /** Whenever `Integer(s)` accepts `s`, `s.to_i` yields the same number. */
  lemma ToIAgreesWithInteger(s: string)
    requires KernelInteger(Str(s)).Success?
    ensures ToI(Some(s)) == KernelInteger(Str(s)).value
  {
    assert !IsSpace(s[0]);
    assert DropSpaces(s) == s;
    if s[0] == '-' || s[0] == '+' {
      var body := s[1..];
      assert LeadingDigits(body) == |body|;
      assert body[..|body|] == body;
    } else {
      assert LeadingDigits(s) == |s|;
      assert s[..|s|] == s;
    }
  }

  /** `n.to_s` for a natural number. */
  function NatToDecimal(n: nat): (s: string)
    ensures |s| > 0 && AllDigits(s)
  {
    if n < 10 then [DigitChar(n)] else NatToDecimal(n / 10) + [DigitChar(n % 10)]
  }

  /** `n.to_s` for any integer. */
  function IntToDecimal(n: int): string
  {
    if n < 0 then "-" + NatToDecimal(-n) else NatToDecimal(n)
  }

  lemma {:induction false} NatDecimalRoundTrip(n: nat)
    ensures DigitsValue(NatToDecimal(n)) == n
  {
    if n >= 10 {
      var s := NatToDecimal(n);
      assert s[..|s| - 1] == NatToDecimal(n / 10);
      NatDecimalRoundTrip(n / 10);
    }
  }

  /** `Integer(n.to_s) == n` for every integer `n`. */
  lemma IntegerOfDecimal(n: int)
    ensures KernelInteger(Str(IntToDecimal(n))) == Success(n)
  {
    if n < 0 {
      var s := IntToDecimal(n);
      assert s[1..] == NatToDecimal(-n);
      NatDecimalRoundTrip(-n);
    } else {
      NatDecimalRoundTrip(n);
    }
  }

  // ---------------------------------------------------------------------------
  // Hash (insertion-ordered, String keys)

  /** A Ruby Hash with String keys: its keys in insertion order and its entries. */
  datatype Hash = Hash(keys: seq<string>, at: map<string, Value>)
  {
    /** Each key is listed once, and exactly the keys with an entry are listed. */
    predicate Valid()
    {
      && Distinct(keys)
      && (forall k :: k in at ==> k in keys)
      && (forall k :: k in keys ==> k in at)
    }

    /**
     * `h[k] = v`: a new key goes to the end of the order, an existing key keeps
     * its place and gets the new value.
     */
    function Put(k: string, v: Value): (h: Hash)
      ensures Valid() ==> h.Valid()
      ensures h.at == at[k := v]
      ensures Valid() && k in keys ==> h.keys == keys
      ensures Valid() && k !in keys ==> h.keys == keys + [k]
    {
      Hash(if k in at then keys else keys + [k], at[k := v])
    }
  }

  /** `{}`. */
  function EmptyHash(): (h: Hash)
    ensures h.Valid() && h.keys == [] && h.at == map[]
  {
    Hash([], map[])
  }
}
