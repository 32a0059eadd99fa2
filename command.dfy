/**
 * Decoding of one received byte string, as the main loop of pngpet.py does
 * it: split on the first `:`, strip the body, compare the keyword with
 * `state`, and parse the body with Python's `int()`.
 */
module Command {
  import opened Wrappers

  newtype byte = x: int | 0 <= x < 256

  const Colon: byte := 58
  const Underscore: byte := 95
  const Plus: byte := 43
  const Minus: byte := 45
  const Zero: byte := 48

  /** The keyword `state`, as ASCII bytes. */
  const StateKeyword: seq<byte> := [115, 116, 97, 116, 101]

  /** What one read amounts to.  `Malformed` is the `ValueError` that a
      missing `:` or a body that is not an integer raises; the connection
      handler does not catch it.  `Closed` is an empty read. */
  datatype Command = SetState(target: int) | Unknown | Malformed | Closed

  /** ASCII whitespace as `bytes.strip()` removes it: space, tab, line feed,
      vertical tab, form feed, carriage return. */
  predicate IsSpace(b: byte)
  {
    b == 32 || 9 <= b <= 13
  }

  predicate IsDigit(b: byte)
  {
    48 <= b <= 57
  }

  /** The position of the first `:` in `s`, which is where `split(b":", 1)` cuts. */
  function FirstColon(s: seq<byte>): (r: Option<nat>)
    ensures r.None? <==> Colon !in s
    ensures r.Some? ==> r.value < |s| && s[r.value] == Colon && Colon !in s[..r.value]
  {
    if s == [] then None
    else if s[0] == Colon then Some(0)
    else
      match FirstColon(s[1..])
      case None => None
      case Some(k) =>
        assert s[..k + 1] == [s[0]] + s[1..][..k];
        Some(k + 1)
  }

  /** `s` without its leading whitespace. */
  function StripLeft(s: seq<byte>): (r: seq<byte>)
    ensures |r| <= |s| && r == s[|s| - |r|..]
    ensures forall k :: 0 <= k < |s| - |r| ==> IsSpace(s[k])
    ensures r == [] || !IsSpace(r[0])
  {
    if s != [] && IsSpace(s[0]) then
      var r := StripLeft(s[1..]);
      assert s[1..][|s| - 1 - |r|..] == s[|s| - |r|..];
      r
    else s
  }

  /** `s` without its trailing whitespace. */
  function StripRight(s: seq<byte>): (r: seq<byte>)
    ensures |r| <= |s| && r == s[..|r|]
    ensures forall k :: |r| <= k < |s| ==> IsSpace(s[k])
    ensures r == [] || !IsSpace(r[|r| - 1])
  {
    if s != [] && IsSpace(s[|s| - 1]) then
      var r := StripRight(s[..|s| - 1]);
      assert s[..|s| - 1][..|r|] == s[..|r|];
      r
    else s
  }

  /** `bytes.strip()`: the result neither starts nor ends with whitespace. */
  function Strip(s: seq<byte>): (r: seq<byte>)
    ensures |r| <= |s|
    ensures r == [] || (!IsSpace(r[0]) && !IsSpace(r[|r| - 1]))
  {
    StripRight(StripLeft(s))
  }

  /** The digit strings `int()` accepts in base 10: digits, with single
      underscores allowed between two digits. */
  predicate IsNumeral(s: seq<byte>)
  {
    |s| > 0 && forall k :: 0 <= k < |s| ==> NumeralAt(s, k)
  }

  /** Position `k` of a numeral holds a digit, or an underscore that has a
      digit on both sides. */
  predicate NumeralAt(s: seq<byte>, k: nat)
    requires k < |s|
  {
    IsDigit(s[k]) || (s[k] == Underscore && 0 < k < |s| - 1 && IsDigit(s[k - 1]) && IsDigit(s[k + 1]))
  }

  /** The value of a numeral; underscores carry no value. */
  function NumeralValue(s: seq<byte>): nat
  {
    if s == [] then 0
    else
      var last := s[|s| - 1];
      if IsDigit(last) then 10 * NumeralValue(s[..|s| - 1]) + (last - Zero) as nat
      else NumeralValue(s[..|s| - 1])
  }

  /** Python's `int()` on an already stripped byte string: an optional sign,
      then a numeral; anything else raises `ValueError` (`None`). */
  function ParseInt(s: seq<byte>): (r: Option<int>)
    ensures r.Some? <==> IsNumeral(s) || (|s| > 0 && (s[0] == Plus || s[0] == Minus) && IsNumeral(s[1..]))
    ensures r.Some? && IsDigit(s[0]) ==> r.value == NumeralValue(s)
    ensures r.Some? && s[0] == Plus ==> r.value == NumeralValue(s[1..])
    ensures r.Some? && s[0] == Minus ==> r.value == -(NumeralValue(s[1..]) as int)
  {
    if |s| > 0 && (s[0] == Plus || s[0] == Minus) then
      assert !NumeralAt(s, 0);
      if IsNumeral(s[1..]) then
        var v := NumeralValue(s[1..]) as int;
        Some(if s[0] == Minus then -v else v)
      else None
    else if IsNumeral(s) then Some(NumeralValue(s))
    else None
  }

  /** `data` begins with the keyword and the colon, `state:`. */
  predicate HasStatePrefix(data: seq<byte>)
  {
    |data| >= |StateKeyword| + 1 && data[..|StateKeyword| + 1] == StateKeyword + [Colon]
  }

  /** The command in one read.  Only the exact keyword `state` before the first
      `:` is recognised; its body is stripped and parsed as an integer. */
  function Decode(data: seq<byte>): (r: Command)
    ensures r.Closed? <==> data == []
    ensures r.Unknown? <==> Colon in data && !HasStatePrefix(data)
    ensures r.SetState? ==> HasStatePrefix(data) && ParseInt(Strip(data[|StateKeyword| + 1..])) == Some(r.target)
    ensures r.Malformed? <==>
      data != [] &&
      (Colon !in data || (HasStatePrefix(data) && ParseInt(Strip(data[|StateKeyword| + 1..])).None?))
  {
    if data == [] then Closed
    else
      match FirstColon(data)
      case None => Malformed
      case Some(k) =>
        var cmd, body := data[..k], data[k + 1..];
        assert HasStatePrefix(data) <==> cmd == StateKeyword by {
          if cmd == StateKeyword {
            assert data[..k + 1] == cmd + [Colon];
          }
          if HasStatePrefix(data) {
            assert data[5] == Colon;
            assert Colon !in data[..5];
            assert k == 5;
          }
        }
        if cmd != StateKeyword then Unknown
        else
          match ParseInt(Strip(body))
          case None => Malformed
          case Some(n) => SetState(n)
  }

  // ---------------------------------------------------------------------------
  // The client side of the protocol, `state:<integer>`, and the round trip

  /** The decimal digits of `n`, most significant first. */
  function Decimal(n: nat): (r: seq<byte>)
    ensures |r| > 0 && forall k :: 0 <= k < |r| ==> IsDigit(r[k])
  {
    if n < 10 then [(n + 48) as byte]
    else Decimal(n / 10) + [(n % 10 + 48) as byte]
  }

  /** `str(t)` as bytes. */
  function Integer(t: int): seq<byte>
  {
    if t < 0 then [Minus] + Decimal(-t) else Decimal(t)
  }

  /** The message a client sends to ask for state `t`. */
  function Encode(t: int): seq<byte>
  {
    StateKeyword + [Colon] + Integer(t)
  }

  /** Decimal digits read back as the number they were made from. */
  lemma {:induction false} DecimalRoundTrip(n: nat)
    ensures IsNumeral(Decimal(n)) && NumeralValue(Decimal(n)) == n
    decreases n
  {
    var d := Decimal(n);
    if n >= 10 {
      DecimalRoundTrip(n / 10);
      assert d[..|d| - 1] == Decimal(n / 10);
    }
  }

  /** `int(str(t)) == t`. */
  lemma IntegerRoundTrip(t: int)
    ensures ParseInt(Integer(t)) == Some(t)
  {
    if t < 0 {
      DecimalRoundTrip(-t);
      assert Integer(t)[1..] == Decimal(-t);
    } else {
      DecimalRoundTrip(t);
    }
  }

  /** Leading whitespace is stripped and nothing else. */
  lemma {:induction false} StripLeftSpaces(pre: seq<byte>, s: seq<byte>)
    requires forall k :: 0 <= k < |pre| ==> IsSpace(pre[k])
    requires s == [] || !IsSpace(s[0])
    ensures StripLeft(pre + s) == s
    decreases |pre|
  {
    if pre != [] {
      assert (pre + s)[1..] == pre[1..] + s;
      StripLeftSpaces(pre[1..], s);
    }
  }

  /** Trailing whitespace is stripped and nothing else. */
  lemma {:induction false} StripRightSpaces(s: seq<byte>, post: seq<byte>)
    requires forall k :: 0 <= k < |post| ==> IsSpace(post[k])
    requires s == [] || !IsSpace(s[|s| - 1])
    ensures StripRight(s + post) == s
    decreases |post|
  {
    if post != [] {
      var shorter := post[..|post| - 1];
      assert (s + post)[..|s + post| - 1] == s + shorter;
      StripRightSpaces(s, shorter);
    }
  }

  /** `strip()` removes exactly the whitespace around a body that neither
      starts nor ends with whitespace. */
  lemma StripAround(pre: seq<byte>, s: seq<byte>, post: seq<byte>)
    requires forall k :: 0 <= k < |pre| ==> IsSpace(pre[k])
    requires forall k :: 0 <= k < |post| ==> IsSpace(post[k])
    requires s != [] && !IsSpace(s[0]) && !IsSpace(s[|s| - 1])
    ensures Strip(pre + s + post) == s
  {
    assert pre + s + post == pre + (s + post);
    StripLeftSpaces(pre, s + post);
    StripRightSpaces(s, post);
  }

  /** A read that starts with `state:` is decided by its body alone. */
  lemma DecodeBody(data: seq<byte>)
    requires HasStatePrefix(data)
    ensures ParseInt(Strip(data[|StateKeyword| + 1..])).None? ==> Decode(data) == Malformed
    ensures ParseInt(Strip(data[|StateKeyword| + 1..])).Some? ==>
      Decode(data) == SetState(ParseInt(Strip(data[|StateKeyword| + 1..])).value)
  {
    assert data[5] == Colon;
  }

  /** Every request a client can form decodes to the state it names, whatever
      whitespace surrounds the number. */
  lemma RoundTrip(t: int, pre: seq<byte>, post: seq<byte>)
    requires forall k :: 0 <= k < |pre| ==> IsSpace(pre[k])
    requires forall k :: 0 <= k < |post| ==> IsSpace(post[k])
    ensures Decode(StateKeyword + [Colon] + pre + Integer(t) + post) == SetState(t)
  {
    var n := Integer(t);
    var data := StateKeyword + [Colon] + pre + n + post;
    assert data[..|StateKeyword| + 1] == StateKeyword + [Colon];
    assert data[|StateKeyword| + 1..] == pre + n + post;
    assert !IsSpace(n[0]) && !IsSpace(n[|n| - 1]) by {
      if t < 0 {
        assert n[|n| - 1] == Decimal(-t)[|Decimal(-t)| - 1];
      }
    }
    StripAround(pre, n, post);
    IntegerRoundTrip(t);
    DecodeBody(data);
  }

  /** The plain message `state:<t>` decodes to a request for state `t`. */
  lemma EncodeRoundTrip(t: int)
    ensures Decode(Encode(t)) == SetState(t)
  {
    var e := Encode(t);
    var n := Integer(t);
    assert e == StateKeyword + [Colon] + [] + n + [];
    RoundTrip(t, [], []);
  }

  /** A read whose text before the first `:` is not exactly `state` is an
      unknown command. */
  lemma OtherKeyword(data: seq<byte>, k: nat)
    requires k < |data| && data[k] == Colon && Colon !in data[..k]
    requires data[..k] != StateKeyword
    ensures Decode(data) == Unknown
  {
  }

  /** The keyword is compared exactly: `State:1` and ` state:1` are unknown
      commands, and `state` without a colon is malformed. */
  lemma KeywordIsExact(capital: seq<byte>, spaced: seq<byte>)
    requires capital == [83, 116, 97, 116, 101, 58, 49]
    requires spaced == [32, 115, 116, 97, 116, 101, 58, 49]
    ensures Decode(capital) == Unknown
    ensures Decode(spaced) == Unknown
    ensures Decode(StateKeyword) == Malformed
  {
    assert capital[..5][0] != StateKeyword[0];
    OtherKeyword(capital, 5);
    assert spaced[..6] != StateKeyword;
    OtherKeyword(spaced, 6);
    assert Colon !in StateKeyword;
  }

  /** An empty or non-numeric body makes `int()` fail. */
  lemma NotNumeral(s: seq<byte>)
    requires s == [] || (!IsDigit(s[0]) && s[0] != Plus && s[0] != Minus)
    ensures ParseInt(s).None?
  {
    if s != [] {
      assert !NumeralAt(s, 0);
    }
  }

  /** A body that is not an integer, such as `state:abc` or `state:`, raises
      rather than being dropped. */
  lemma NonIntegerBodyIsMalformed(word: seq<byte>)
    requires word == [97, 98, 99]
    ensures Decode(StateKeyword + [Colon] + word) == Malformed
    ensures Decode(StateKeyword + [Colon]) == Malformed
  {
    var a := StateKeyword + [Colon] + word;
    assert HasStatePrefix(a) && a[6..] == [] + word + [];
    StripAround([], word, []);
    NotNumeral(word);
    DecodeBody(a);
    var b := StateKeyword + [Colon];
    assert HasStatePrefix(b) && b[6..] == [];
    NotNumeral([]);
    DecodeBody(b);
  }
}
