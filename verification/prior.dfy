/**
 * The prior knowledge Pr(h): the distribution of the secret over the secrets
 * of the initial states, either uniform or read from a list of lines.
 */
module Prior {
  import opened Wrappers
  import opened TransitionSystem

  /** Where the prior comes from: assumed uniform, or supplied as a file. */
  datatype PriorKnowledgeType = Uniform | InitDistFile

  /** Why a supplied distribution is refused. */
  datatype PriorError =
    | FormatError(line: nat)        // 1-based number of the first line that is not a number
    | CountMismatch(expected: nat)  // the file must hold one value per initial state
    | NormalizationError            // the values do not sum to 1 within TOLERANCE

  const TOLERANCE: real := 0.001

  /** The secret labels of the initial states, in the order of `start`. */
  function StartSecrets(sys: System): (r: seq<string>)
    requires sys.Valid()
    ensures |r| == |sys.start|
    ensures forall i :: 0 <= i < |r| ==> r[i] == sys.Secret(sys.start[i])
  {
    SecretsOf(sys, sys.start)
  }

  function SecretsOf(sys: System, states: seq<nat>): (r: seq<string>)
    requires InRange(sys, states)
    ensures |r| == |states|
    ensures forall i :: 0 <= i < |r| ==> r[i] == sys.Secret(states[i])
  {
    if states == [] then []
    else SecretsOf(sys, states[..|states| - 1]) + [sys.Secret(states[|states| - 1])]
  }

  // ---------------------------------------------------------------- uniform

  /**
   * One key per distinct secret of the initial states, each mapped to
   * 1 / (number of initial states); initial states sharing a secret share a key.
   */
  method UniformPriorKnowledge(sys: System) returns (pk: map<string, real>)
    requires sys.Valid()
    ensures pk.Keys == set h | h in StartSecrets(sys)
    ensures forall h :: h in pk ==> pk[h] == 1.0 / (|sys.start| as real)
  {
    var secrets := StartSecrets(sys);
    pk := map[];
    for i := 0 to |sys.start|
      invariant pk.Keys == set h | h in secrets[..i]
      invariant forall h :: h in pk ==> pk[h] == 1.0 / (|sys.start| as real)
    {
      assert secrets[..i + 1] == secrets[..i] + [secrets[i]];
      pk := pk[sys.Secret(sys.start[i]) := 1.0 / (|sys.start| as real)];
    }
    assert secrets[..|sys.start|] == secrets;
  }

  // ---------------------------------------------------------------- trimming

  /** The characters String.trim removes: every code point up to U+0020. */
  predicate IsSpace(c: char) {
    c <= ' '
  }

  function TrimLeading(s: string): string {
    if s != [] && IsSpace(s[0]) then TrimLeading(s[1..]) else s
  }

  function TrimTrailing(s: string): string {
    if s != [] && IsSpace(s[|s| - 1]) then TrimTrailing(s[..|s| - 1]) else s
  }

  /** String.trim: drops the space characters at both ends. */
  function Trim(s: string): string {
    TrimTrailing(TrimLeading(s))
  }

  lemma {:induction false} TrimLeadingEmpty(s: string)
    ensures TrimLeading(s) == "" <==> forall k :: 0 <= k < |s| ==> IsSpace(s[k])
    ensures TrimLeading(s) != "" ==> !IsSpace(TrimLeading(s)[0])
  {
    if s != [] && IsSpace(s[0]) {
      TrimLeadingEmpty(s[1..]);
      assert forall k :: 1 <= k < |s| ==> s[k] == s[1..][k - 1];
    }
  }

  lemma {:induction false} TrimTrailingEmpty(s: string)
    ensures TrimTrailing(s) == "" <==> forall k :: 0 <= k < |s| ==> IsSpace(s[k])
  {
    if s != [] && IsSpace(s[|s| - 1]) {
      TrimTrailingEmpty(s[..|s| - 1]);
    }
  }

  /** A line is skipped exactly when it consists of space characters only. */
  lemma TrimEmptyIffBlank(s: string)
    ensures Trim(s) == "" <==> forall k :: 0 <= k < |s| ==> IsSpace(s[k])
  {
    TrimLeadingEmpty(s);
    TrimTrailingEmpty(TrimLeading(s));
  }

  // ---------------------------------------------------------------- parsing

  /** A line that is not blank and that the number parser rejects. */
  predicate Unparsable(line: string, parse: string -> Option<real>) {
    Trim(line) != "" && parse(Trim(line)).None?
  }

  /** Line `n` (1-based) is the first unparsable line. */
  predicate FirstUnparsable(lines: seq<string>, parse: string -> Option<real>, n: nat) {
    && 1 <= n <= |lines|
    && Unparsable(lines[n - 1], parse)
    && forall j :: 0 <= j < n - 1 ==> !Unparsable(lines[j], parse)
  }

  lemma FirstUnparsableUnique(lines: seq<string>, parse: string -> Option<real>, a: nat, b: nat)
    requires FirstUnparsable(lines, parse, a) && FirstUnparsable(lines, parse, b)
    ensures a == b
  {
  }

  /** The trimmed non-blank lines, in order. */
  function NonBlank(lines: seq<string>): seq<string> {
    if lines == [] then []
    else
      var l := Trim(lines[|lines| - 1]);
      NonBlank(lines[..|lines| - 1]) + (if l == "" then [] else [l])
  }

  /**
   * The values of the non-blank lines, or the 1-based number of the first line
   * that does not parse.
   */
  function ParseLines(lines: seq<string>, parse: string -> Option<real>): Result<seq<real>, nat> {
    if lines == [] then Success([])
    else
      var n := |lines|;
      var l := Trim(lines[n - 1]);
      match ParseLines(lines[..n - 1], parse)
      case Failure(e) => Failure(e)
      case Success(vs) =>
        if l == "" then Success(vs)
        else match parse(l)
          case None => Failure(n)
          case Some(d) => Success(vs + [d])
  }

  /** A reported line number names the first unparsable line. */
  lemma {:induction false} ParseLinesFailure(lines: seq<string>, parse: string -> Option<real>)
    requires ParseLines(lines, parse).Failure?
    ensures FirstUnparsable(lines, parse, ParseLines(lines, parse).error)
  {
    var m := |lines| - 1;
    var init := lines[..m];
    match ParseLines(init, parse)
    case Failure(e) =>
      ParseLinesFailure(init, parse);
      assert ParseLines(lines, parse) == Failure(e);
      assert forall j :: 0 <= j < e ==> lines[j] == init[j];
    case Success(vs) =>
      ParseLinesOk(init, parse);
      assert ParseLines(lines, parse) == Failure(m + 1);
      assert forall j :: 0 <= j < m ==> lines[j] == init[j];
  }

  /** Parsing succeeds exactly when no line is unparsable. */
  lemma {:induction false} ParseLinesOk(lines: seq<string>, parse: string -> Option<real>)
    ensures ParseLines(lines, parse).Success? <==> forall j :: 0 <= j < |lines| ==> !Unparsable(lines[j], parse)
  {
    if lines != [] {
      var m := |lines| - 1;
      var init := lines[..m];
      assert forall j :: 0 <= j < m ==> lines[j] == init[j];
      ParseLinesOk(init, parse);
      if ParseLines(init, parse).Failure? {
        ParseLinesFailure(init, parse);
        assert !ParseLines(lines, parse).Success?;
        assert Unparsable(lines[ParseLines(init, parse).error - 1], parse);
      }
    }
  }

  /** On success, the k-th value is the parse of the k-th non-blank line. */
  lemma {:induction false} ParseLinesValues(lines: seq<string>, parse: string -> Option<real>)
    requires ParseLines(lines, parse).Success?
    ensures |ParseLines(lines, parse).value| == |NonBlank(lines)|
    ensures forall k :: 0 <= k < |NonBlank(lines)| ==> parse(NonBlank(lines)[k]) == Some(ParseLines(lines, parse).value[k])
  {
    if lines != [] {
      var m := |lines| - 1;
      var init := lines[..m];
      var l := Trim(lines[m]);
      var vs := ParseLines(init, parse).value;
      var nb := NonBlank(init);
      assert NonBlank(lines) == nb + (if l == "" then [] else [l]);
      ParseLinesValues(init, parse);
      if l != "" {
        var d := parse(l).value;
        assert ParseLines(lines, parse).value == vs + [d];
        assert NonBlank(lines) == nb + [l];
      }
    }
  }

  /** Reading one more line extends a successful parse as the loop does. */
  lemma ParseLinesStep(lines: seq<string>, parse: string -> Option<real>, i: nat, vs: seq<real>)
    requires i < |lines| && ParseLines(lines[..i], parse) == Success(vs)
    ensures ParseLines(lines[..i + 1], parse) ==
              var l := Trim(lines[i]);
              if l == "" then Success(vs)
              else if parse(l).None? then Failure(i + 1)
              else Success(vs + [parse(l).value])
  {
    assert lines[..i + 1][..i] == lines[..i];
  }

  /** A failure on a prefix of the lines is the failure on all of them. */
  lemma {:induction false} ParseLinesPrefixFailure(lines: seq<string>, parse: string -> Option<real>, i: nat)
    requires i <= |lines| && ParseLines(lines[..i], parse).Failure?
    ensures ParseLines(lines, parse) == ParseLines(lines[..i], parse)
    decreases |lines| - i
  {
    if i < |lines| {
      assert lines[..i + 1][..i] == lines[..i];
      ParseLinesPrefixFailure(lines, parse, i + 1);
    } else {
      assert lines[..i] == lines;
    }
  }

  function Sum(vs: seq<real>): real {
    if vs == [] then 0.0 else Sum(vs[..|vs| - 1]) + vs[|vs| - 1]
  }

  function Abs(x: real): real {
    if x < 0.0 then -x else x
  }

  /**
   * Pairs secrets with values by position; a later secret overwrites an
   * earlier equal one.
   */
  function ZipPrior(secrets: seq<string>, values: seq<real>): map<string, real>
    requires |secrets| == |values|
  {
    if secrets == [] then map[]
    else
      var n := |secrets|;
      ZipPrior(secrets[..n - 1], values[..n - 1])[secrets[n - 1] := values[n - 1]]
  }

  /**
   * The keys are exactly the secrets, and a secret that does not occur again
   * later is mapped to the value at its position.
   */
  lemma {:induction false} ZipPriorShape(secrets: seq<string>, values: seq<real>)
    requires |secrets| == |values|
    ensures ZipPrior(secrets, values).Keys == set h | h in secrets
    ensures forall i :: 0 <= i < |secrets| && (forall j :: i < j < |secrets| ==> secrets[j] != secrets[i]) ==>
              ZipPrior(secrets, values)[secrets[i]] == values[i]
    decreases |secrets|
  {
    if secrets != [] {
      var n := |secrets|;
      assert secrets == secrets[..n - 1] + [secrets[n - 1]];
      ZipPriorShape(secrets[..n - 1], values[..n - 1]);
    }
  }

  lemma ZipPriorStep(secrets: seq<string>, values: seq<real>, i: nat)
    requires |secrets| == |values| && i < |secrets|
    ensures ZipPrior(secrets[..i + 1], values[..i + 1]) == ZipPrior(secrets[..i], values[..i])[secrets[i] := values[i]]
  {
    assert secrets[..i + 1][..i] == secrets[..i];
    assert values[..i + 1][..i] == values[..i];
  }

  /**
   * The distribution a supplied file yields for initial states with the given
   * secrets: a format error first, then the count check, then the sum check.
   */
  function InitDistribution(secrets: seq<string>, lines: seq<string>, parse: string -> Option<real>): Result<map<string, real>, PriorError> {
    match ParseLines(lines, parse)
    case Failure(n) => Failure(FormatError(n))
    case Success(vs) =>
      if |vs| != |secrets| then Failure(CountMismatch(|secrets|))
      else if Abs(Sum(vs) - 1.0) > TOLERANCE then Failure(NormalizationError)
      else Success(ZipPrior(secrets, vs))
  }

  lemma InitDistributionOfValues(secrets: seq<string>, lines: seq<string>, parse: string -> Option<real>, vs: seq<real>)
    requires ParseLines(lines, parse) == Success(vs)
    ensures InitDistribution(secrets, lines, parse) ==
              if |vs| != |secrets| then Failure(CountMismatch(|secrets|))
              else if Abs(Sum(vs) - 1.0) > TOLERANCE then Failure(NormalizationError)
              else Success(ZipPrior(secrets, vs))
  {
  }

  lemma InitDistributionOfFailure(secrets: seq<string>, lines: seq<string>, parse: string -> Option<real>)
    requires ParseLines(lines, parse).Failure?
    ensures InitDistribution(secrets, lines, parse) == Failure(FormatError(ParseLines(lines, parse).error))
  {
  }

  /**
   * Reads the prior from `lines`, trimming each line, skipping blank ones and
   * parsing the others with `parse`.
   */
  method ReadInitDistribution(sys: System, lines: seq<string>, parse: string -> Option<real>)
    returns (r: Result<map<string, real>, PriorError>)
    requires sys.Valid()
    ensures r == InitDistribution(StartSecrets(sys), lines, parse)
  {
    var initDist: seq<real> := [];
    var initDistSum := 0.0;
    var lineNum := 0;
    while lineNum < |lines|
      invariant lineNum <= |lines|
      invariant ParseLines(lines[..lineNum], parse) == Success(initDist)
      invariant initDistSum == Sum(initDist)
    {
      var l := Trim(lines[lineNum]);
      ParseLinesStep(lines, parse, lineNum, initDist);
      if l != "" {
        match parse(l)
        case None =>
          ParseLinesPrefixFailure(lines, parse, lineNum + 1);
          InitDistributionOfFailure(StartSecrets(sys), lines, parse);
          return Failure(FormatError(lineNum + 1));
        case Some(d) =>
          assert (initDist + [d])[..|initDist|] == initDist;
          initDist := initDist + [d];
          initDistSum := initDistSum + d;
      }
      lineNum := lineNum + 1;
    }
    assert lines[..lineNum] == lines;
    InitDistributionOfValues(StartSecrets(sys), lines, parse, initDist);
    var startSize := |sys.start|;
    if |initDist| != startSize {
      return Failure(CountMismatch(startSize));
    }
    if Abs(initDistSum - 1.0) > TOLERANCE {
      return Failure(NormalizationError);
    }
    var secrets := StartSecrets(sys);
    var priorKnowledge := map[];
    for i := 0 to startSize
      invariant priorKnowledge == ZipPrior(secrets[..i], initDist[..i])
    {
      ZipPriorStep(secrets, initDist, i);
      priorKnowledge := priorKnowledge[sys.Secret(sys.start[i]) := initDist[i]];
    }
    assert secrets[..startSize] == secrets && initDist[..startSize] == initDist;
    return Success(priorKnowledge);
  }

  // ---------------------------------------------------------------- what a file yields

  /** A file fails with FormatError(n) exactly when line n is the first unparsable line. */
  lemma InitDistributionFormatError(secrets: seq<string>, lines: seq<string>, parse: string -> Option<real>, n: nat)
    ensures InitDistribution(secrets, lines, parse) == Failure(FormatError(n)) <==> FirstUnparsable(lines, parse, n)
  {
    ParseLinesOk(lines, parse);
    var r := ParseLines(lines, parse);
    if r.Failure? {
      ParseLinesFailure(lines, parse);
      if FirstUnparsable(lines, parse, n) {
        FirstUnparsableUnique(lines, parse, n, r.error);
      }
    } else {
      InitDistributionOfValues(secrets, lines, parse, r.value);
    }
  }

  /** Without an unparsable line, the count is checked before the sum. */
  lemma InitDistributionCountChecked(secrets: seq<string>, lines: seq<string>, parse: string -> Option<real>)
    requires forall j :: 0 <= j < |lines| ==> !Unparsable(lines[j], parse)
    ensures InitDistribution(secrets, lines, parse) == Failure(CountMismatch(|secrets|)) <==> |NonBlank(lines)| != |secrets|
  {
    ParseLinesOk(lines, parse);
    ParseLinesValues(lines, parse);
  }

  /**
   * With one parsable value per secret, the file is refused exactly when the
   * values miss 1 by more than TOLERANCE, and otherwise each secret gets the
   * value of the last line that pairs with it.
   */
  lemma InitDistributionAccepted(secrets: seq<string>, lines: seq<string>, parse: string -> Option<real>, vs: seq<real>)
    requires ParseLines(lines, parse) == Success(vs) && |vs| == |secrets|
    ensures InitDistribution(secrets, lines, parse) == Failure(NormalizationError) <==> Abs(Sum(vs) - 1.0) > TOLERANCE
    ensures InitDistribution(secrets, lines, parse).Success? ==>
              && InitDistribution(secrets, lines, parse).value.Keys == set h | h in secrets
              && forall i :: 0 <= i < |secrets| && (forall j :: i < j < |secrets| ==> secrets[j] != secrets[i]) ==>
                   && secrets[i] in InitDistribution(secrets, lines, parse).value
                   && InitDistribution(secrets, lines, parse).value[secrets[i]] == vs[i]
  {
    var r := InitDistribution(secrets, lines, parse);
    assert r == if Abs(Sum(vs) - 1.0) > TOLERANCE then Failure(NormalizationError) else Success(ZipPrior(secrets, vs));
    ZipPriorShape(secrets, vs);
  }
}
