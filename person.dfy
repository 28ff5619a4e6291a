/** The sample application's `Person`: two mutable fields, a no-argument and
    a two-argument constructor, and a `toString` built by string
    concatenation. */
module SampleApp {
  import opened Wrappers

  /** Java's `int`. */
  newtype int32 = x: int | -0x8000_0000 <= x < 0x8000_0000

  predicate IsDigit(c: char)
  {
    '0' <= c <= '9'
  }

  function DigitChar(d: nat): (c: char)
    requires d < 10
  {
    ('0' as int + d) as char
  }

  /** The base-10 digits of `n`, most significant first, without leading zeros. */
  function Digits(n: nat): (s: string)
    ensures |s| >= 1
    ensures forall i :: 0 <= i < |s| ==> IsDigit(s[i])
    ensures s[0] == '0' <==> n == 0
    ensures n < 10 ==> |s| == 1
  {
    if n < 10 then [DigitChar(n)] else Digits(n / 10) + [DigitChar(n % 10)]
  }

  /** Java's decimal rendering of an `int` (string concatenation calls
      `Integer.toString`): a `-` for a negative number, then the digits of its
      magnitude. */
  function Decimal(n: int): (s: string)
    ensures |s| >= 1
    ensures s[0] == '-' <==> n < 0
    ensures forall i :: 0 <= i < |s| ==> IsDigit(s[i]) || (i == 0 && s[i] == '-')
    ensures n < 0 ==> |s| >= 2 && s[1] != '0'
  {
    if n < 0 then "-" + Digits(-n) else Digits(n)
  }

  /** The number a string of digits denotes. */
  function DigitsValue(s: string): int
  {
    if s == [] then 0 else 10 * DigitsValue(s[..|s| - 1]) + (s[|s| - 1] as int - '0' as int)
  }

  /** The number a decimal rendering denotes: the reading `Integer.parseInt`
      gives it. */
  function DecimalValue(s: string): int
  {
    if |s| > 0 && s[0] == '-' then -DigitsValue(s[1..]) else DigitsValue(s)
  }

  lemma {:induction false} DigitsRoundTrip(n: nat)
    ensures DigitsValue(Digits(n)) == n
  {
    if n >= 10 {
      var s := Digits(n);
      assert s[..|s| - 1] == Digits(n / 10);
      DigitsRoundTrip(n / 10);
    }
  }

  /** Reading the rendering back gives the number rendered. */
  lemma DecimalRoundTrip(n: int)
    ensures DecimalValue(Decimal(n)) == n
  {
    if n < 0 {
      assert Decimal(n)[1..] == Digits(-n);
      DigitsRoundTrip(-n);
    } else {
      DigitsRoundTrip(n);
    }
  }

  /** Two different numbers never render alike. */
  lemma DecimalInjective(m: int, n: int)
    requires Decimal(m) == Decimal(n)
    ensures m == n
  {
    DecimalRoundTrip(m);
    DecimalRoundTrip(n);
  }

  /** Fewer than 10^k needs at most k digits. */
  lemma {:induction false} DigitsWidth(n: nat, k: nat)
    requires 1 <= k && n < Pow10(k)
    ensures |Digits(n)| <= k
  {
    if n >= 10 {
      DigitsWidth(n / 10, k - 1);
    }
  }

  function Pow10(k: nat): nat
  {
    if k == 0 then 1 else 10 * Pow10(k - 1)
  }

  /** An `int` renders in at most eleven characters: a sign and ten digits. */
  lemma DecimalWidth(n: int32)
    ensures |Decimal(n as int)| <= 11
  {
    assert Pow10(10) == 10_000_000_000;
    if n < 0 {
      DigitsWidth(-(n as int), 10);
    } else {
      DigitsWidth(n as int, 10);
    }
  }

  const Prefix: string := "Person{name='"
  const AgeLabel: string := "', age="

  /** How Java's string concatenation renders a `String` operand: a `null`
      reference becomes the four letters `null`, any other string is copied
      as it is, quotes included. */
  function NameText(name: Option<string>): string
  {
    match name
    case None => "null"
    case Some(s) => s
  }

  class Person {
    var name: Option<string>
    var age: int32

    /** `Person()`: the fields keep Java's defaults, `null` and `0`. */
    constructor Default()
      ensures name == None && age == 0
    {
      name := None;
      age := 0;
    }

    /** `Person(name, age)`: both arguments are stored unchanged. */
    constructor (name: Option<string>, age: int32)
      ensures this.name == name && this.age == age
    {
      this.name := name;
      this.age := age;
    }

    /** `toString()`: `Person{name='<name>', age=<age>}`. It only reads the
        object. */
    function ToString(): (s: string)
      reads this
      ensures |s| >= |Prefix| + |NameText(name)| + |AgeLabel| + 2
      ensures s[..|Prefix|] == Prefix && s[|s| - 1] == '}'
      ensures s[|Prefix|..|Prefix| + |NameText(name)|] == NameText(name)
    {
      Prefix + NameText(name) + AgeLabel + Decimal(age as int) + "}"
    }
  }

  /** The position of the last `c` in `s`, if any. */
  function LastIndexOf(s: string, c: char): (r: Option<nat>)
    ensures r.Some? ==> r.value < |s| && s[r.value] == c
    ensures r.Some? ==> forall j :: r.value < j < |s| ==> s[j] != c
    ensures r.None? ==> forall j :: 0 <= j < |s| ==> s[j] != c
  {
    if s == [] then None
    else if s[|s| - 1] == c then Some(|s| - 1)
    else LastIndexOf(s[..|s| - 1], c)
  }

  /** The age a `toString` result states: what stands between the last `=`
      and the closing brace. */
  function AgeOf(s: string): Option<int>
  {
    if |s| == 0 || s[|s| - 1] != '}' then None
    else
      match LastIndexOf(s[..|s| - 1], '=')
      case None => None
      case Some(i) => Some(DecimalValue(s[i + 1..|s| - 1]))
  }

  /** The name text a `toString` result states: what stands between the
      prefix and the `', age=` before the last `=`. */
  function NameOf(s: string): Option<string>
  {
    if |s| == 0 || s[|s| - 1] != '}' || |s| < |Prefix| || s[..|Prefix|] != Prefix then None
    else
      match LastIndexOf(s[..|s| - 1], '=')
      case None => None
      case Some(i) =>
        if i + 1 < |Prefix| + |AgeLabel| then None
        else Some(s[|Prefix|..i + 1 - |AgeLabel|])
  }

  /** In `x + y`, where `x` ends with `c` and `y` holds no `c`, the last `c`
      is the one closing `x`. */
  lemma LastIndexOfJoin(x: string, y: string, c: char)
    requires |x| > 0 && x[|x| - 1] == c
    requires forall j :: 0 <= j < |y| ==> y[j] != c
    ensures LastIndexOf(x + y, c) == Some(|x| - 1)
  {
    assert (x + y)[|x| - 1] == c;
  }

  /** The text `toString` builds from a name text and an age can be read back. */
  lemma ReadRendering(name: string, age: int)
    ensures AgeOf(Prefix + name + AgeLabel + Decimal(age) + "}") == Some(age)
    ensures NameOf(Prefix + name + AgeLabel + Decimal(age) + "}") == Some(name)
  {
    var d := Decimal(age);
    var head := Prefix + name + AgeLabel;
    var s := head + d + "}";
    assert Prefix + name + AgeLabel + d + "}" == s;
    assert s[..|s| - 1] == head + d;
    assert head[|head| - 1] == '=';
    LastIndexOfJoin(head, d, '=');
    assert s[|head|..|s| - 1] == d;
    DecimalRoundTrip(age);
    assert s[..|Prefix|] == Prefix;
    assert s[|Prefix|..|head| - |AgeLabel|] == name;
  }

  /** Both fields can be read back from `toString`: the age exactly, the name
      as its rendering. The name cannot hide the age, whatever quotes or `=`
      it contains, because the digits of the age contain no `=`. */
  lemma ToStringRecoversFields(p: Person)
    ensures AgeOf(p.ToString()) == Some(p.age as int)
    ensures NameOf(p.ToString()) == Some(NameText(p.name))
  {
    ReadRendering(NameText(p.name), p.age as int);
  }

  /** A `null` name and the string "null" render alike: `toString` alone
      cannot tell them apart. */
  lemma NullNameIndistinguishable(p: Person, q: Person)
    requires p.name == None && q.name == Some("null") && p.age == q.age
    ensures p.ToString() == q.ToString()
  {
  }

  /** A negative age keeps its sign. */
  method NegativeAgeScenario()
  {
    var p := new Person(Some("Ann"), -7);
    assert Digits(7) == "7";
    assert Decimal(-7) == "-7";
    var s := p.ToString();
    assert s == "Person{name='Ann', age=-7}";
  }

  /** `Person()` renders its null name as `null` and its zero age as `0`. */
  method DefaultPersonScenario()
  {
    var q := new Person.Default();
    assert Digits(0) == "0";
    assert Decimal(0) == "0";
    assert q.ToString() == Prefix + "null" + AgeLabel + "0" + "}";
    assert q.ToString() == "Person{name='null', age=0}";
  }
}
