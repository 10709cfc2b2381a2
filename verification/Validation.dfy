/**
 The string-side validators, over Unicode text, and their agreement with the byte-side
 validators on the UTF-8 encoding of that text.
 */
module Validation {
  import opened Common
  import opened Names

  // ----- UTF-8 -----

  function EncodeChar(c: char): (bytes: Str)
    ensures c as int < 128 ==> bytes == [c as int]
    ensures c as int >= 128 ==> |bytes| >= 2 && forall i :: 0 <= i < |bytes| ==> bytes[i] >= 128
  {
    var x := c as int;
    if x < 0x80 then [x]
    else if x < 0x800 then [0xC0 + x / 0x40, 0x80 + x % 0x40]
    else if x < 0x10000 then [0xE0 + x / 0x1000, 0x80 + (x / 0x40) % 0x40, 0x80 + x % 0x40]
    else [0xF0 + x / 0x40000, 0x80 + (x / 0x1000) % 0x40, 0x80 + (x / 0x40) % 0x40, 0x80 + x % 0x40]
  }

  function FlatMap<A, B>(s: seq<A>, f: A -> seq<B>): seq<B> {
    if s == [] then [] else f(s[0]) + FlatMap(s[1..], f)
  }

  lemma Associative<T>(a: seq<T>, b: seq<T>, c: seq<T>)
    ensures a + (b + c) == (a + b) + c
  {
  }

  lemma {:induction false} FlatMapAppend<A, B>(a: seq<A>, b: seq<A>, f: A -> seq<B>)
    ensures FlatMap(a + b, f) == FlatMap(a, f) + FlatMap(b, f)
  {
    if a == [] {
      assert a + b == b;
    } else {
      FlatMapAppend(a[1..], b, f);
      assert (a + b)[0] == a[0] && (a + b)[1..] == a[1..] + b;
      Associative(f(a[0]), FlatMap(a[1..], f), FlatMap(b, f));
    }
  }

  function Encode(s: string): Str {
    FlatMap(s, EncodeChar)
  }

  // ----- string validators -----

  predicate LabelChar(c: char) {
    'a' <= c <= 'z' || '0' <= c <= '9' || c == '-'
  }

  /** `label.len()` counts UTF-8 bytes; the character test precedes the boundary test. */
  function ValidateLabel(s: string): Result<(), CommonError> {
    if |Encode(s)| < MIN_NAME_LENGTH then Err(NameTooShort)
    else if |Encode(s)| > MAX_NAME_LENGTH then Err(NameTooLong)
    else if exists i :: 0 <= i < |s| && !LabelChar(s[i]) then Err(InvalidCharacters)
    else if s != [] && (s[0] == '-' || s[|s| - 1] == '-') then Err(InvalidLabelBoundary)
    else Ok(())
  }

  function ParseFqdn(name: string): Result<string, CommonError> {
    var parts := Split(name, '.');
    if |parts| < 2 then Err(MissingTld)
    else if |parts| > 2 then Err(InvalidName)
    else
      match ValidateLabel(parts[0])
      case Err(e) => Err(e)
      case Ok(_) => if parts[1] == "xlm" then Ok(parts[0]) else Err(UnsupportedTld)
  }

  // ----- agreement -----

  predicate Ascii(s: string) {
    forall i :: 0 <= i < |s| ==> s[i] as int < 128
  }

  lemma EncodeAppend(a: string, b: string)
    ensures Encode(a + b) == Encode(a) + Encode(b)
  {
    FlatMapAppend(a, b, EncodeChar);
  }

  lemma EncodeOne(c: char)
    ensures Encode([c]) == EncodeChar(c)
  {
    assert [c][1..] == [];
    assert FlatMap([c][1..], EncodeChar) == [];
  }

  /** ASCII text keeps its length and its characters; other text gains a byte above 127. */
  lemma {:induction false} EncodeAscii(s: string)
    ensures Ascii(s) ==> |Encode(s)| == |s| && forall i :: 0 <= i < |s| ==> Encode(s)[i] == s[i] as int
    ensures !Ascii(s) ==> exists i :: 0 <= i < |Encode(s)| && Encode(s)[i] >= 128
  {
    if s != [] {
      EncodeAscii(s[1..]);
      var head, tail := EncodeChar(s[0]), Encode(s[1..]);
      if Ascii(s) {
        assert Ascii(s[1..]);
      } else if s[0] as int >= 128 {
        assert Encode(s)[0] >= 128;
      } else {
        assert !Ascii(s[1..]);
        var i :| 0 <= i < |tail| && tail[i] >= 128;
        assert Encode(s)[i + 1] == tail[i];
      }
    }
  }

  /** Both label validators accept the same text. */
  lemma LabelValidatorsAgree(s: string)
    ensures ValidateLabel(s).Ok? <==> ValidateLabelBytes(Encode(s)).Ok?
  {
    CharsAgree(s);
    if s != [] {
      EncodeEnds(s);
    }
  }

  lemma EncodeEnds(s: string)
    requires s != []
    ensures Encode(s) != []
    ensures Encode(s)[0] == HYPHEN <==> s[0] == '-'
    ensures Encode(s)[|Encode(s)| - 1] == HYPHEN <==> s[|s| - 1] == '-'
  {
    var front, last := s[..|s| - 1], s[|s| - 1];
    EncodeAppend(front, [last]);
    assert s == front + [last];
    EncodeOne(last);
    EncodeAppend([s[0]], s[1..]);
    assert s == [s[0]] + s[1..];
    EncodeOne(s[0]);
  }

  lemma CharsAgree(s: string)
    ensures (exists i :: 0 <= i < |s| && !LabelChar(s[i])) <==>
            (exists i :: 0 <= i < |Encode(s)| && !LabelByte(Encode(s)[i]))
  {
    EncodeAscii(s);
    if Ascii(s) {
      assert forall i :: 0 <= i < |s| ==> (LabelChar(s[i]) <==> LabelByte(Encode(s)[i]));
    } else {
      var i :| 0 <= i < |s| && s[i] as int >= 128;
      assert !LabelChar(s[i]);
      var k :| 0 <= k < |Encode(s)| && Encode(s)[k] >= 128;
      assert !LabelByte(Encode(s)[k]);
    }
  }

  /** They report different errors on exactly one family: admissible length, a forbidden
      character, and a hyphen at one end. */
  lemma LabelErrorsDifferIff(s: string)
    ensures ValidateLabel(s) != ValidateLabelBytes(Encode(s)) <==>
            && MIN_NAME_LENGTH <= |Encode(s)| <= MAX_NAME_LENGTH
            && (exists i :: 0 <= i < |s| && !LabelChar(s[i]))
            && (s[0] == '-' || s[|s| - 1] == '-')
  {
    LabelValidatorsAgree(s);
    if s != [] {
      EncodeEnds(s);
    }
    CharsAgree(s);
  }

  lemma {:induction false} EncodeDots(s: string)
    ensures DOT in Encode(s) <==> '.' in s
  {
    if s != [] {
      EncodeDots(s[1..]);
      assert s == [s[0]] + s[1..];
      assert DOT in EncodeChar(s[0]) <==> s[0] == '.';
    }
  }

  lemma EncodeCut(a: string, b: string)
    ensures Encode(a + ['.'] + b) == Encode(a) + [DOT] + Encode(b)
  {
    EncodeAppend(a + ['.'], b);
    EncodeAppend(a, ['.']);
    EncodeOne('.');
  }

  function EncodeAll(parts: seq<string>): (r: seq<Str>)
    ensures |r| == |parts|
  {
    if parts == [] then [] else [Encode(parts[0])] + EncodeAll(parts[1..])
  }

  lemma EncodeAllCons(p: string, ps: seq<string>)
    ensures EncodeAll([p] + ps) == [Encode(p)] + EncodeAll(ps)
  {
    assert ([p] + ps)[1..] == ps;
  }

  /** Encoding commutes with cutting at dots. */
  lemma {:induction false} EncodeSplit(s: string)
    ensures Split(Encode(s), DOT) == EncodeAll(Split(s, '.'))
    decreases |s|
  {
    var d := FirstSep(s, '.');
    var head := s[..d];
    EncodeDots(head);
    if d == |s| {
      assert head == s;
      EncodeAllCons(s, []);
      assert FirstSep(Encode(s), DOT) == |Encode(s)|;
    } else {
      var rest := s[d + 1..];
      EncodeSplit(rest);
      EncodeCut(head, rest);
      assert s == head + ['.'] + rest;
      SplitAt(Encode(head), Encode(rest), DOT);
      EncodeAllCons(head, Split(rest, '.'));
    }
  }

  lemma EncodeXlm(s: string)
    ensures Encode(s) == XLM <==> s == "xlm"
  {
    EncodeAscii(s);
    if Encode(s) == XLM {
      assert Ascii(s);
    }
  }

  /** `parse_fqdn` and the byte-level base-name check accept the same text, and the label
      parsed is the one the byte side extracts. */
  lemma FqdnValidatorsAgree(s: string)
    ensures ParseFqdn(s).Ok? <==> ValidateBaseName(Encode(s)).Ok?
    ensures ParseFqdn(s).Ok? ==> ExtractLabel(Encode(s)) == Ok(Encode(ParseFqdn(s).value))
  {
    var name, parts := Encode(s), Split(s, '.');
    EncodeSplit(s);
    if |parts| == 2 {
      assert parts[1..] == [parts[1]];
      assert Split(name, DOT) == [Encode(parts[0]), Encode(parts[1])];
      JoinSplit(name, DOT);
      assert name == Encode(parts[0]) + [DOT] + Encode(parts[1]);
      LabelValidatorsAgree(parts[0]);
      EncodeXlm(parts[1]);
      TwoPartBase(Encode(parts[0]), Encode(parts[1]));
    } else {
      BaseNameIffTwoParts(name);
    }
  }

  lemma TwoPartBase(a: Str, b: Str)
    requires DOT !in a && DOT !in b
    ensures ValidateBaseName(a + [DOT] + b).Ok? <==> ValidateLabelBytes(a).Ok? && b == XLM
    ensures ValidateLabelBytes(a).Ok? && b == XLM ==> ExtractLabel(a + [DOT] + b) == Ok(a)
  {
    FirstSepAppend(a, b, DOT);
    var name := a + [DOT] + b;
    assert name[..|a|] == a && name[|a| + 1..] == b;
    BuildThenExtract(a);
  }
}
