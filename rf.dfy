/**
 * The consistency parameters `ack/from` of one request: the parser for the
 * `replicas` query parameter and the resolver that checks it against the
 * cluster size. `RF.java` and the copy nested in `ReplicasSimpleServiceImpl`
 * behave identically; this module models both.
 */
module ReplicationFactor {
  import opened Wrappers
  import opened JavaTypes

  datatype RF = RF(ack: Int32, from: Int32)

  /** The majority default `(size / 2 + 1, size)` both services build at start-up. */
  function Majority(size: nat): (rf: RF)
    requires size <= INT_MAX
    ensures size >= 1 ==> Acceptable(rf, size)
    ensures rf.from == size && 2 * rf.ack > size
  {
    RF(size / 2 + 1, size)
  }

  /** The check `getRf` applies: `ack < 1 || from < ack || from > size` is refused. */
  predicate Acceptable(rf: RF, size: int)
  {
    !(rf.ack < 1 || rf.from < rf.ack || rf.from > size)
  }

  // ---------------------------------------------------------------------------
  // String.replace("=", "")

  /** Every occurrence of c removed, the other characters kept in order. */
  function RemoveAll(s: string, c: char): (r: string)
    ensures c !in r
    ensures forall x :: x in r <==> x in s && x != c
    ensures c !in s ==> r == s
  {
    if s == [] then []
    else if s[0] == c then RemoveAll(s[1..], c)
    else [s[0]] + RemoveAll(s[1..], c)
  }

  // ---------------------------------------------------------------------------
  // Splitter.on(sep).splitToList(s): every separator splits, empty parts are kept

  function Split(s: string, sep: char): (parts: seq<string>)
    ensures |parts| >= 1
  {
    if s == [] then [[]]
    else
      var rest := Split(s[1..], sep);
      if s[0] == sep then [[]] + rest else [[s[0]] + rest[0]] + rest[1..]
  }

  /** The inverse of Split: the parts glued back with the separator. */
  function Join(parts: seq<string>, sep: char): string
    requires |parts| >= 1
  {
    if |parts| == 1 then parts[0] else parts[0] + [sep] + Join(parts[1..], sep)
  }

  function Occurrences(s: string, c: char): nat
  {
    if s == [] then 0 else (if s[0] == c then 1 else 0) + Occurrences(s[1..], c)
  }

  /** Splitting loses nothing: joining the parts gives the input back, and no part holds the separator. */
  lemma {:induction false} SplitJoin(s: string, sep: char)
    ensures Join(Split(s, sep), sep) == s
    ensures forall i :: 0 <= i < |Split(s, sep)| ==> sep !in Split(s, sep)[i]
    ensures |Split(s, sep)| == Occurrences(s, sep) + 1
  {
    if s != [] {
      SplitJoin(s[1..], sep);
      var rest := Split(s[1..], sep);
      if s[0] == sep {
        assert Split(s, sep)[1..] == rest;
      } else {
        var parts := Split(s, sep);
        assert parts[1..] == rest[1..];
        if |rest| > 1 {
          assert rest[1..] == rest[1..];
          assert Join(rest, sep) == rest[0] + [sep] + Join(rest[1..], sep);
        }
        assert s == [s[0]] + s[1..];
      }
    }
  }

  // ---------------------------------------------------------------------------
  // Integer.parseInt(s) and Integer.toString(n), decimal digits '0'..'9'

  predicate IsDigit(c: char)
  {
    '0' <= c <= '9'
  }

  predicate AllDigits(s: string)
  {
    forall i :: 0 <= i < |s| ==> IsDigit(s[i])
  }

  function DigitsValue(s: string): nat
    requires AllDigits(s)
  {
    if s == [] then 0
    else DigitsValue(s[..|s| - 1]) * 10 + (s[|s| - 1] as int - '0' as int)
  }

  /** `Integer.parseInt`: an optional sign, at least one digit, and a value that fits an int. */
  function ParseInt(s: string): (r: Option<Int32>)
    ensures r.Some? ==> s != [] && '/' !in s && '=' !in s
  {
    var negative := s != [] && s[0] == '-';
    var digits := if s != [] && (s[0] == '-' || s[0] == '+') then s[1..] else s;
    if digits == [] || !AllDigits(digits) then None
    else
      var v: int := if negative then 0 - DigitsValue(digits) else DigitsValue(digits);
      if -0x8000_0000 <= v < 0x8000_0000 then
        assert forall i :: 0 <= i < |digits| ==> IsDigit(digits[i]);
        assert '/' !in digits && '=' !in digits;
        Some(v)
      else None
  }

  function DigitChar(d: nat): (c: char)
    requires d < 10
    ensures IsDigit(c) && c as int - '0' as int == d
  {
    ('0' as int + d) as char
  }

  /** The decimal digits of m, without leading zeros. */
  function NatDigits(m: nat): (s: string)
    ensures s != [] && AllDigits(s)
  {
    if m < 10 then [DigitChar(m)] else NatDigits(m / 10) + [DigitChar(m % 10)]
  }

  /** `Integer.toString` */
  function IntToString(n: Int32): string
  {
    if n < 0 then "-" + NatDigits(-(n as int)) else NatDigits(n)
  }

  lemma {:induction false} DigitsValueOfNatDigits(m: nat)
    ensures DigitsValue(NatDigits(m)) == m
  {
    if m >= 10 {
      var s := NatDigits(m);
      assert s[..|s| - 1] == NatDigits(m / 10);
      DigitsValueOfNatDigits(m / 10);
    }
  }

  /** Parsing a printed int gives the int back. */
  lemma ParseIntToString(n: Int32)
    ensures ParseInt(IntToString(n)) == Some(n)
  {
    if n < 0 {
      ParseNegative(n);
    } else {
      ParseNonNegative(n);
    }
  }

  lemma ParseNegative(n: Int32)
    requires n < 0
    ensures ParseInt(IntToString(n)) == Some(n)
  {
    var s := IntToString(n);
    var m: nat := -(n as int);
    var digits := NatDigits(m);
    DigitsValueOfNatDigits(m);
    assert s == "-" + digits;
    assert s[0] == '-' && s[1..] == digits;
    assert 0 - DigitsValue(digits) == n as int;
  }

  lemma ParseNonNegative(n: Int32)
    requires n >= 0
    ensures ParseInt(IntToString(n)) == Some(n)
  {
    var digits := NatDigits(n);
    DigitsValueOfNatDigits(n);
    assert IntToString(n) == digits && IsDigit(digits[0]);
  }

  // ---------------------------------------------------------------------------
  // RF.of and RF.getRf

  /** `RF.of`: drop every '=', split on '/', require two parts, parse both as ints. */
  function Of(value: string): (r: Result<RF, Fault>)
    ensures r.Ok? ==> Occurrences(RemoveAll(value, '='), '/') == 1
    ensures r.Err? ==> r.error == IllegalArgument
  {
    var values := Split(RemoveAll(value, '='), '/');
    SplitJoin(RemoveAll(value, '='), '/');
    if |values| != 2 then Err(IllegalArgument)
    else
      match (ParseInt(values[0]), ParseInt(values[1]))
      case (Some(ack), Some(from)) => Ok(RF(ack, from))
      case _ => Err(IllegalArgument)
  }

  /** What `getRf` leaves behind: the value it returns and whether it sent BAD_REQUEST. */
  datatype Resolution = Resolution(rf: Option<RF>, badRequest: bool)

  /**
   * `RF.getRf`: the default when no parameter was given, otherwise the parsed
   * one; an unparsable or unacceptable value sends BAD_REQUEST, and the method
   * still returns what it last assigned (null, or the parsed but refused value).
   */
  function GetRf(replicas: Option<string>, rf: RF, size: int): (r: Resolution)
    ensures !r.badRequest ==> r.rf.Some? && 1 <= r.rf.value.ack <= r.rf.value.from <= size
    ensures r.badRequest <==> r.rf.None? || !Acceptable(r.rf.value, size)
    ensures replicas.None? ==> r.rf == Some(rf)
    ensures replicas.Some? ==> (r.rf.None? <==> Of(replicas.value).Err?)
    ensures replicas.Some? && r.rf.Some? ==> r.rf == Some(Of(replicas.value).value)
  {
    var newRf := if replicas.None? then Ok(rf) else Of(replicas.value);
    match newRf
    case Err(_) => Resolution(None, true)
    case Ok(parsed) =>
      if parsed.ack < 1 || parsed.from < parsed.ack || parsed.from > size then Resolution(Some(parsed), true)
      else Resolution(Some(parsed), false)
  }

  /** `ack/from` printed as the client writes it is parsed back exactly. */
  lemma OfRoundTrip(ack: Int32, from: Int32)
    ensures Of(IntToString(ack) + "/" + IntToString(from)) == Ok(RF(ack, from))
  {
    var a, f := IntToString(ack), IntToString(from);
    var s := a + "/" + f;
    ParseIntToString(ack);
    ParseIntToString(from);
    assert '=' !in s;
    assert RemoveAll(s, '=') == s;
    SplitAppend(a, f, '/');
  }

  lemma {:induction false} SplitAppend(a: string, b: string, sep: char)
    requires sep !in a && sep !in b
    ensures Split(a + [sep] + b, sep) == [a, b]
  {
    if a == [] {
      assert ([] + [sep] + b)[1..] == b;
      SplitNone(b, sep);
    } else {
      assert (a + [sep] + b)[1..] == a[1..] + [sep] + b;
      SplitAppend(a[1..], b, sep);
      assert [a[0]] + a[1..] == a;
    }
  }

  lemma {:induction false} SplitNone(s: string, sep: char)
    requires sep !in s
    ensures Split(s, sep) == [s]
  {
    if s != [] {
      SplitNone(s[1..], sep);
      assert [s[0]] + s[1..] == s;
    }
  }

  /** A value that is not `ack/from` at all: BAD_REQUEST and a null result. */
  lemma RefusesGarbage()
    ensures GetRf(Some("abc"), Majority(3), 3) == Resolution(None, true)
  {
    SplitNone("abc", '/');
    assert RemoveAll("abc", '=') == "abc";
  }

  /** ack above from: BAD_REQUEST, and the refused value is still returned. */
  lemma RefusesAckAboveFrom()
    ensures GetRf(Some("=5/2"), Majority(3), 3) == Resolution(Some(RF(5, 2)), true)
  {
    assert RemoveAll("=5/2", '=') == "5/2";
    OfRoundTrip(5, 2);
    assert IntToString(5) + "/" + IntToString(2) == "5/2";
  }

  /** from above the cluster size: BAD_REQUEST, and the refused value is still returned. */
  lemma RefusesFromAboveSize()
    ensures GetRf(Some("10/10"), Majority(3), 3) == Resolution(Some(RF(10, 10)), true)
  {
    assert RemoveAll("10/10", '=') == "10/10";
    OfRoundTrip(10, 10);
    assert NatDigits(10) == NatDigits(1) + [DigitChar(0)];
    assert IntToString(10) + "/" + IntToString(10) == "10/10";
  }
}
