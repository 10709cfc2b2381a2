/**
 The name grammar: the byte-level validators and builders used on chain, and the language
 they accept.
 */
module Names {
  import opened Common

  const MIN_NAME_LENGTH := 3
  const MAX_NAME_LENGTH := 64
  const XLM_SUFFIX_LEN := 4
  const MAX_FQDN_LENGTH := MAX_NAME_LENGTH + XLM_SUFFIX_LEN

  const DOT: Byte := 46
  const HYPHEN: Byte := 45
  const XLM: Str := [120, 108, 109]

  datatype CommonError =
    | NameTooShort | NameTooLong | InvalidLabelBoundary | InvalidCharacters
    | MissingTld | InvalidName | UnsupportedTld

  // ----- splitting on a separator -----

  /** Position of the first `sep`, or the length when there is none. */
  function FirstSep<T(==)>(s: seq<T>, sep: T): (i: nat)
    ensures i <= |s|
    ensures forall k :: 0 <= k < i ==> s[k] != sep
    ensures i < |s| ==> s[i] == sep
  {
    if s == [] || s[0] == sep then 0 else 1 + FirstSep(s[1..], sep)
  }

  /** Position of the last `sep`, if any. */
  function LastSep<T(==)>(s: seq<T>, sep: T): (r: Option<nat>)
    ensures r.None? ==> sep !in s
    ensures r.Some? ==> r.value < |s| && s[r.value] == sep && sep !in s[r.value + 1..]
  {
    if s == [] then None
    else if s[|s| - 1] == sep then Some(|s| - 1)
    else LastSep(s[..|s| - 1], sep)
  }

  function Split<T(==)>(s: seq<T>, sep: T): (parts: seq<seq<T>>)
    ensures |parts| >= 1
    decreases |s|
  {
    var d := FirstSep(s, sep);
    if d == |s| then [s] else [s[..d]] + Split(s[d + 1..], sep)
  }

  function Join<T>(parts: seq<seq<T>>, sep: T): seq<T>
    requires |parts| >= 1
  {
    if |parts| == 1 then parts[0] else parts[0] + [sep] + Join(parts[1..], sep)
  }

  ghost predicate SepFree<T>(parts: seq<seq<T>>, sep: T) {
    forall i :: 0 <= i < |parts| ==> sep !in parts[i]
  }

  /** Splitting loses nothing and leaves no separator behind. */
  lemma {:induction false} JoinSplit<T>(s: seq<T>, sep: T)
    ensures Join(Split(s, sep), sep) == s
    ensures SepFree(Split(s, sep), sep)
    decreases |s|
  {
    var d := FirstSep(s, sep);
    if d < |s| {
      JoinSplit(s[d + 1..], sep);
      assert s == s[..d] + [sep] + s[d + 1..];
      assert Split(s, sep)[1..] == Split(s[d + 1..], sep);
    }
  }

  lemma FirstSepAppend<T>(a: seq<T>, b: seq<T>, sep: T)
    requires sep !in a
    ensures FirstSep(a + [sep] + b, sep) == |a|
  {
    var s := a + [sep] + b;
    assert s[|a|] == sep;
    assert forall k :: 0 <= k < |a| ==> s[k] == a[k];
  }

  lemma SplitAt<T>(a: seq<T>, b: seq<T>, sep: T)
    requires sep !in a
    ensures Split(a + [sep] + b, sep) == [a] + Split(b, sep)
  {
    FirstSepAppend(a, b, sep);
    var s := a + [sep] + b;
    assert s[..|a|] == a && s[|a| + 1..] == b;
  }

  /** ... and separator-free parts survive the round trip, so the decomposition is unique. */
  lemma {:induction false} SplitJoin<T>(parts: seq<seq<T>>, sep: T)
    requires |parts| >= 1 && SepFree(parts, sep)
    ensures Split(Join(parts, sep), sep) == parts
  {
    assert sep !in parts[0];
    if |parts| == 1 {
      assert FirstSep(parts[0], sep) == |parts[0]|;
    } else {
      SplitJoin(parts[1..], sep);
      SplitAt(parts[0], Join(parts[1..], sep), sep);
    }
  }

  lemma {:induction false} JoinAppend<T>(a: seq<seq<T>>, b: seq<seq<T>>, sep: T)
    requires |a| >= 1 && |b| >= 1
    ensures Join(a + b, sep) == Join(a, sep) + [sep] + Join(b, sep)
  {
    if |a| == 1 {
      assert (a + b)[1..] == b;
    } else {
      assert (a + b)[1..] == a[1..] + b;
      JoinAppend(a[1..], b, sep);
      assert Join(a + b, sep) == a[0] + [sep] + (Join(a[1..], sep) + [sep] + Join(b, sep));
    }
  }

  // ----- byte validators -----

  predicate LabelByte(b: Byte) {
    97 <= b <= 122 || 48 <= b <= 57 || b == HYPHEN
  }

  function ValidateLabelBytes(bytes: Str): Result<(), CommonError> {
    if |bytes| < MIN_NAME_LENGTH then Err(NameTooShort)
    else if |bytes| > MAX_NAME_LENGTH then Err(NameTooLong)
    else if bytes[0] == HYPHEN || bytes[|bytes| - 1] == HYPHEN then Err(InvalidLabelBoundary)
    else if exists i :: 0 <= i < |bytes| && !LabelByte(bytes[i]) then Err(InvalidCharacters)
    else Ok(())
  }

  /** A label of the grammar: 3 to 64 of [a-z0-9-], no hyphen at either end. */
  predicate IsLabel(s: Str) {
    && MIN_NAME_LENGTH <= |s| <= MAX_NAME_LENGTH
    && (forall i :: 0 <= i < |s| ==> LabelByte(s[i]))
    && s[0] != HYPHEN && s[|s| - 1] != HYPHEN
  }

  function ValidateBaseName(name: Str): Result<(), CommonError> {
    if |name| > MAX_FQDN_LENGTH then Err(NameTooLong)
    else
      var d := FirstSep(name, DOT);
      if d == |name| then Err(MissingTld)
      else if DOT in name[d + 1..] then Err(InvalidName)
      else
        var lbl := ValidateLabelBytes(name[..d]);
        if lbl.Err? then lbl
        else if name[d + 1..] != XLM then Err(UnsupportedTld)
        else Ok(())
  }

  /** The verdict of the label loop: the first failing label decides. */
  function FirstLabelError(labels: seq<Str>): Result<(), CommonError> {
    if labels == [] then Ok(())
    else if ValidateLabelBytes(labels[0]).Err? then ValidateLabelBytes(labels[0])
    else FirstLabelError(labels[1..])
  }

  function ValidateFqdn(name: Str): Result<(), CommonError> {
    if |name| > MAX_FQDN_LENGTH then Err(NameTooLong)
    else
      match LastSep(name, DOT)
      case None => Err(MissingTld)
      case Some(d) =>
        if name[d + 1..] != XLM then Err(UnsupportedTld)
        else FirstLabelError(Split(name[..d], DOT))
  }

  predicate IsFqdn(name: Str) {
    ValidateFqdn(name).Ok?
  }

  /** The loop of `validate_fqdn_soroban`, leaving at the first bad label. */
  method CheckFqdn(name: Str) returns (r: Result<(), CommonError>)
    ensures r == ValidateFqdn(name)
  {
    if |name| > MAX_FQDN_LENGTH {
      return Err(NameTooLong);
    }
    var dot := LastSep(name, DOT);
    if dot.None? {
      return Err(MissingTld);
    }
    if name[dot.value + 1..] != XLM {
      return Err(UnsupportedTld);
    }
    var labels := Split(name[..dot.value], DOT);
    var i := 0;
    while i < |labels|
      invariant 0 <= i <= |labels|
      invariant FirstLabelError(labels) == FirstLabelError(labels[i..])
    {
      var v := ValidateLabelBytes(labels[i]);
      if v.Err? {
        return v;
      }
      assert labels[i..][1..] == labels[i + 1..];
      i := i + 1;
    }
    return Ok(());
  }

  function ExtractLabel(name: Str): Result<Str, CommonError> {
    if |name| > MAX_FQDN_LENGTH then Err(NameTooLong)
    else
      var d := FirstSep(name, DOT);
      if d == |name| then Err(MissingTld)
      else
        match ValidateFqdn(name)
        case Err(e) => Err(e)
        case Ok(_) => Ok(name[..d])
  }

  function BuildXlmName(lbl: Str): Result<Str, CommonError> {
    if |lbl| > MAX_NAME_LENGTH then Err(NameTooLong)
    else
      match ValidateLabelBytes(lbl)
      case Err(e) => Err(e)
      case Ok(_) => Ok(lbl + [DOT] + XLM)
  }

  /** The builder of the source: a fixed 68-byte buffer filled piece by piece. */
  method BuildXlmNameInBuffer(lbl: Str) returns (r: Result<Str, CommonError>)
    ensures r == BuildXlmName(lbl)
  {
    if |lbl| > MAX_NAME_LENGTH {
      return Err(NameTooLong);
    }
    var v := ValidateLabelBytes(lbl);
    if v.Err? {
      return Err(v.error);
    }
    var fqdn := new Byte[MAX_FQDN_LENGTH](_ => 0);
    forall i | 0 <= i < |lbl| {
      fqdn[i] := lbl[i];
    }
    fqdn[|lbl|] := DOT;
    forall i | 0 <= i < |XLM| {
      fqdn[|lbl| + 1 + i] := XLM[i];
    }
    assert fqdn[..|lbl| + XLM_SUFFIX_LEN] == lbl + [DOT] + XLM;
    return Ok(fqdn[..|lbl| + XLM_SUFFIX_LEN]);
  }

  // ----- the accepted language -----

  /** The bytes a label may have. */
  lemma LabelAlphabet(b: Byte)
    ensures LabelByte(b) <==> var c := b as char; 'a' <= c <= 'z' || '0' <= c <= '9' || c == '-'
  {
  }

  lemma ValidLabelIff(s: Str)
    ensures ValidateLabelBytes(s).Ok? <==> IsLabel(s)
    ensures IsLabel(s) ==> DOT !in s
  {
  }

  /** The reasons a label is refused for: length first, then the ends, then the alphabet. */
  predicate LabelReason(s: Str, e: CommonError) {
    match e
    case NameTooShort => |s| < 3
    case NameTooLong => |s| > 64
    case InvalidLabelBoundary => 3 <= |s| <= 64 && (s[0] == HYPHEN || s[|s| - 1] == HYPHEN)
    case InvalidCharacters =>
      && 3 <= |s| <= 64 && s[0] != HYPHEN && s[|s| - 1] != HYPHEN
      && exists i :: 0 <= i < |s| && !LabelByte(s[i])
    case _ => false
  }

  lemma LabelErrorsAreTrue(s: Str)
    requires ValidateLabelBytes(s).Err?
    ensures LabelReason(s, ValidateLabelBytes(s).error)
  {
  }

  /** The reasons a base name is refused for; its parts are those before and after the first dot. */
  predicate BaseReason(name: Str, e: CommonError) {
    var d := FirstSep(name, DOT);
    match e
    case MissingTld => |name| <= 68 && DOT !in name
    case InvalidName => |name| <= 68 && d < |name| && DOT in name[d + 1..]
    case UnsupportedTld =>
      |name| <= 68 && d < |name| && DOT !in name[d + 1..] && IsLabel(name[..d]) && name[d + 1..] != XLM
    case NameTooLong => |name| > 68 || LabelReason(name[..d], e)
    case _ => |name| <= 68 && d < |name| && DOT !in name[d + 1..] && LabelReason(name[..d], e)
  }

  lemma BaseNameErrorsAreTrue(name: Str)
    requires ValidateBaseName(name).Err?
    ensures BaseReason(name, ValidateBaseName(name).error)
  {
    ValidLabelIff(name[..FirstSep(name, DOT)]);
  }

  lemma {:induction false} LabelLoopAccepts(labels: seq<Str>)
    ensures FirstLabelError(labels).Ok? <==> forall i :: 0 <= i < |labels| ==> IsLabel(labels[i])
  {
    if labels != [] {
      ValidLabelIff(labels[0]);
      LabelLoopAccepts(labels[1..]);
      assert forall i :: 1 <= i < |labels| ==> labels[i] == labels[1..][i - 1];
      assert forall i :: 0 <= i < |labels[1..]| ==> labels[1..][i] == labels[i + 1];
    }
  }

  /** `labels` spells `name`: one or more valid labels, dot-joined, then ".xlm". */
  ghost predicate Spells(labels: seq<Str>, name: Str) {
    && |labels| >= 1
    && (forall i :: 0 <= i < |labels| ==> IsLabel(labels[i]))
    && name == Join(labels, DOT) + [DOT] + XLM
  }

  lemma {:induction false} LastSepAppend<T>(a: seq<T>, b: seq<T>, sep: T)
    requires sep !in b
    ensures LastSep(a + [sep] + b, sep) == Some(|a|)
  {
    var s := a + [sep] + b;
    if b == [] {
      assert s[|s| - 1] == sep;
    } else {
      assert s[|s| - 1] == b[|b| - 1];
      assert s[..|s| - 1] == a + [sep] + b[..|b| - 1];
      LastSepAppend(a, b[..|b| - 1], sep);
    }
  }

  /** `validate_fqdn_soroban` accepts exactly the spelled names of at most 68 bytes. */
  lemma FqdnLanguage(name: Str)
    ensures IsFqdn(name) <==> |name| <= MAX_FQDN_LENGTH && exists labels :: Spells(labels, name)
  {
    if IsFqdn(name) {
      var d := LastSep(name, DOT).value;
      var labels := Split(name[..d], DOT);
      LabelLoopAccepts(labels);
      JoinSplit(name[..d], DOT);
      assert name == name[..d] + [DOT] + name[d + 1..];
      assert Spells(labels, name);
    }
    if |name| <= MAX_FQDN_LENGTH && exists labels :: Spells(labels, name) {
      var labels :| Spells(labels, name);
      SpelledIsAccepted(labels, name);
    }
  }

  lemma SpelledIsAccepted(labels: seq<Str>, name: Str)
    requires |name| <= MAX_FQDN_LENGTH && Spells(labels, name)
    ensures IsFqdn(name)
  {
    var body := Join(labels, DOT);
    forall i | 0 <= i < |labels| ensures DOT !in labels[i] {
      ValidLabelIff(labels[i]);
    }
    SplitJoin(labels, DOT);
    LastSepAppend(body, XLM, DOT);
    assert name[..|body|] == body && name[|body| + 1..] == XLM;
    LabelLoopAccepts(labels);
  }

  /** The labels of an accepted name, bare TLD included, are its parts between dots. */
  lemma FqdnParts(labels: seq<Str>, name: Str)
    requires Spells(labels, name)
    ensures Split(name, DOT) == labels + [XLM]
  {
    forall i | 0 <= i < |labels| ensures DOT !in labels[i] {
      ValidLabelIff(labels[i]);
    }
    JoinAppend(labels, [XLM], DOT);
    SplitJoin(labels + [XLM], DOT);
  }

  /** What the builder makes is an accepted base name and an accepted name, and
      `extract_label_soroban` gives the label back. */
  lemma BuildThenExtract(lbl: Str)
    ensures BuildXlmName(lbl).Ok? <==> IsLabel(lbl)
    ensures BuildXlmName(lbl).Ok? ==>
              var name := BuildXlmName(lbl).value;
              && ValidateBaseName(name).Ok?
              && IsFqdn(name)
              && ExtractLabel(name) == Ok(lbl)
  {
    ValidLabelIff(lbl);
    if IsLabel(lbl) {
      var name := lbl + [DOT] + XLM;
      FirstSepAppend(lbl, XLM, DOT);
      assert name[..|lbl|] == lbl && name[|lbl| + 1..] == XLM;
      assert Spells([lbl], name);
      SpelledIsAccepted([lbl], name);
    }
  }

  /** Distinct labels never collide on a name. */
  lemma BuildInjective(a: Str, b: Str)
    requires BuildXlmName(a).Ok? && BuildXlmName(a) == BuildXlmName(b)
    ensures a == b
  {
    BuildThenExtract(a);
    BuildThenExtract(b);
  }

  /** Base names are exactly what the builder can make ... */
  lemma BaseNameIffBuilt(name: Str)
    ensures ValidateBaseName(name).Ok? <==> exists lbl :: BuildXlmName(lbl) == Ok(name)
  {
    if ValidateBaseName(name).Ok? {
      var d := FirstSep(name, DOT);
      assert name == name[..d] + [DOT] + XLM;
      assert BuildXlmName(name[..d]) == Ok(name);
    }
    if lbl :| BuildXlmName(lbl) == Ok(name) {
      BuildThenExtract(lbl);
    }
  }

  lemma BuiltHasTwoParts(lbl: Str, name: Str)
    requires BuildXlmName(lbl) == Ok(name)
    ensures IsFqdn(name) && |Split(name, DOT)| == 2
  {
    BuildThenExtract(lbl);
    assert Spells([lbl], name);
    FqdnParts([lbl], name);
  }

  lemma TwoPartsAreBuilt(name: Str)
    requires IsFqdn(name) && |Split(name, DOT)| == 2
    ensures exists lbl :: BuildXlmName(lbl) == Ok(name)
  {
    FqdnLanguage(name);
    var labels :| Spells(labels, name);
    FqdnParts(labels, name);
    assert labels == [labels[0]];
    ValidLabelIff(labels[0]);
    assert BuildXlmName(labels[0]) == Ok(name);
  }

  /** ... that is, the accepted names of exactly one label before the TLD. */
  lemma BaseNameIffTwoParts(name: Str)
    ensures ValidateBaseName(name).Ok? <==> IsFqdn(name) && |Split(name, DOT)| == 2
  {
    BaseNameIffBuilt(name);
    if lbl :| BuildXlmName(lbl) == Ok(name) {
      BuiltHasTwoParts(lbl, name);
    }
    if IsFqdn(name) && |Split(name, DOT)| == 2 {
      TwoPartsAreBuilt(name);
    }
  }

  /** The extracted label is the leading one of whatever spelling the name has. */
  lemma ExtractedIsFirst(labels: seq<Str>, name: Str)
    requires |name| <= MAX_FQDN_LENGTH && Spells(labels, name)
    ensures ExtractLabel(name) == Ok(labels[0])
  {
    SpelledIsAccepted(labels, name);
    FqdnParts(labels, name);
    assert Split(name, DOT)[0] == labels[0];
  }
}
