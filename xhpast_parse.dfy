/**
 * What XHPASTTree makes of the resolved parser run `(err, stdout, stderr)`:
 * a tree to build, a syntax error with its line, or a failure; and the
 * fragment wrapping of `evalStaticString`.
 */
module XhpastParse {
  import opened Php
  import opened XhpastBuild
  import opened XhpastTokens

  // ---------------------------------------------------------------------
  // The syntax error pattern /^XHPAST Parse Error: (.*) on line (\d+)/
  // ---------------------------------------------------------------------

  const ErrorPrefix: string := "XHPAST Parse Error: "
  const LineMarker: string := " on line "

  /**
   * The pattern's tail matches at `p`: the ` on line ` marker followed by a
   * digit starts at `p`, and `(.*)` can reach `p` from the prefix (it does
   * not match a newline).
   */
  predicate MarkerAt(s: string, p: nat)
  {
    && |ErrorPrefix| <= p && p + |LineMarker| < |s|
    && s[p..p + |LineMarker|] == LineMarker
    && IsDigit(s[p + |LineMarker|])
    && '\n' !in s[|ErrorPrefix|..p]
  }

  /** The longest run of digits in `s` from `i` on. */
  function DigitRun(s: string, i: nat): (r: string)
    requires i <= |s|
    ensures i + |r| <= |s| && r == s[i..i + |r|]
    ensures forall k :: 0 <= k < |r| ==> IsDigit(r[k])
    ensures i + |r| == |s| || !IsDigit(s[i + |r|])
    decreases |s| - i
  {
    if i < |s| && IsDigit(s[i]) then [s[i]] + DigitRun(s, i + 1) else []
  }

  /** The largest position at most `p` where the tail matches, if any: greedy `(.*)` backtracks from the end. */
  function LastMarker(s: string, p: nat): (r: Option<nat>)
    ensures r.Some? ==> r.value <= p && MarkerAt(s, r.value) && forall q: nat :: r.value < q <= p ==> !MarkerAt(s, q)
    ensures r.None? ==> forall q: nat :: q <= p ==> !MarkerAt(s, q)
    decreases p
  {
    if MarkerAt(s, p) then Some(p)
    else if p == 0 then None
    else LastMarker(s, p - 1)
  }

  /**
   * The line the parser reports in `stderr`, as `$matches[2]`: the digits
   * after the last ` on line ` of the first line, when `stderr` starts with
   * the error prefix.
   */
  function SyntaxErrorLine(stderr: string): Option<string>
  {
    if !(ErrorPrefix <= stderr) then None
    else
      match LastMarker(stderr, |stderr|)
      case None => None
      case Some(p) => Some(DigitRun(stderr, p + |LineMarker|))
  }

  /**
   * `stderr` matches the pattern exactly when it starts with the prefix and
   * the tail matches somewhere; the line is then the digit run after the
   * last place where the tail matches.
   */
  lemma SyntaxErrorLineMatches(stderr: string)
    ensures SyntaxErrorLine(stderr).Some? <==> ErrorPrefix <= stderr && exists p: nat :: MarkerAt(stderr, p)
    ensures SyntaxErrorLine(stderr).Some? ==>
      exists p: nat :: && MarkerAt(stderr, p)
                       && SyntaxErrorLine(stderr).value == DigitRun(stderr, p + |LineMarker|)
                       && forall q :: p < q ==> !MarkerAt(stderr, q)
  {
    if ErrorPrefix <= stderr {
      var found := LastMarker(stderr, |stderr|);
      if found.Some? {
        var p := found.value;
        forall q | p < q ensures !MarkerAt(stderr, q) {
          NoMarkerPastEnd(stderr, q);
        }
        assert SyntaxErrorLine(stderr) == Some(DigitRun(stderr, p + |LineMarker|));
      } else {
        forall p: nat ensures !MarkerAt(stderr, p) {
          NoMarkerPastEnd(stderr, p);
        }
        assert SyntaxErrorLine(stderr) == None;
      }
    } else {
      assert SyntaxErrorLine(stderr) == None;
    }
  }

  /** The tail cannot match past the end of the text. */
  lemma NoMarkerPastEnd(s: string, q: nat)
    ensures |s| < q ==> !MarkerAt(s, q)
  {
  }

  /** The parser's own message `XHPAST Parse Error: <m> on line <n>` yields the line `n`, whatever `m` holds on its line. */
  lemma SyntaxErrorRoundTrip(m: string, n: nat)
    requires '\n' !in m
    ensures SyntaxErrorLine(ErrorPrefix + m + LineMarker + NatDigits(n)) == Some(NatDigits(n))
  {
    var s := ErrorPrefix + m + LineMarker + NatDigits(n);
    var p := |ErrorPrefix| + |m|;
    assert s[..|ErrorPrefix|] == ErrorPrefix;
    assert s[|ErrorPrefix|..p] == m;
    assert s[p..p + |LineMarker|] == LineMarker;
    assert s[p + |LineMarker|..] == NatDigits(n);
    MarkerAtEnd(s, p);
  }

  /** When the marker is followed by nothing but digits, it is the last place the tail matches. */
  lemma MarkerAtEnd(s: string, p: nat)
    requires |ErrorPrefix| <= p && p + |LineMarker| < |s|
    requires s[..|ErrorPrefix|] == ErrorPrefix && '\n' !in s[|ErrorPrefix|..p]
    requires s[p..p + |LineMarker|] == LineMarker
    requires forall k :: p + |LineMarker| <= k < |s| ==> IsDigit(s[k])
    ensures SyntaxErrorLine(s) == Some(s[p + |LineMarker|..])
  {
    var t := p + |LineMarker|;
    assert MarkerAt(s, p);
    forall q | p < q ensures !MarkerAt(s, q) {
      NoMarkerAfter(s, p, q);
    }
    assert LastMarker(s, |s|) == Some(p);
    DigitRunAll(s, t);
  }

  /** Past a marker followed by nothing but digits, the tail cannot match again. */
  lemma NoMarkerAfter(s: string, p: nat, q: nat)
    requires p < q && p + |LineMarker| < |s|
    requires s[p..p + |LineMarker|] == LineMarker
    requires forall k :: p + |LineMarker| <= k < |s| ==> IsDigit(s[k])
    ensures !MarkerAt(s, q)
  {
    var t := p + |LineMarker|;
    if q + |LineMarker| < |s| {
      var w := s[q..q + |LineMarker|];
      if t <= q {
        assert w[0] == s[q];
        assert IsDigit(s[q]);
        assert w[0] != LineMarker[0];
      } else {
        assert w[1] == s[q + 1];
        if q + 1 < t {
          assert s[q + 1] == s[p..t][q + 1 - p];
          assert forall k :: 2 <= k < |LineMarker| ==> LineMarker[k] != 'o';
        } else {
          assert IsDigit(s[q + 1]);
        }
        assert w[1] != LineMarker[1];
      }
    }
  }

  /** When `s` holds only digits from `i` on, the run takes all of them. */
  lemma {:induction false} DigitRunAll(s: string, i: nat)
    requires i <= |s| && forall k :: i <= k < |s| ==> IsDigit(s[k])
    ensures DigitRun(s, i) == s[i..]
    decreases |s| - i
  {
    if i < |s| {
      DigitRunAll(s, i + 1);
    }
  }

  // ---------------------------------------------------------------------
  // The three-way split of newFromDataAndResolvedExecFuture
  // ---------------------------------------------------------------------

  /** The fields of the decoded parser output that the constructor takes; absent ones are null. */
  datatype Decoded = Decoded(tree: Option<NodeDesc>, stream: Option<seq<RawToken>>)

  /** What the parser run becomes when it does not yield a tree. */
  datatype ParseError =
    | SyntaxError(line: string, stderr: string)  // XHPASTSyntaxErrorException
    | ParseFailed(message: string)               // a plain Exception
    | NotAnArray                                 // `tree` or `stream` missing: the constructor's array type hint fails

  /** The input of the constructor: the root description and the raw token stream. */
  datatype ParseData = ParseData(root: NodeDesc, stream: seq<RawToken>)

  const FailedPrefix: string := "XHPAST failed to parse file data "
  const DecodeFailure: string := "XHPAST: failed to decode tree."

  /** The message of a failed parser run: the exit code and the error output. */
  function FailureMessage(err: int, stderr: string): string
  {
    FailedPrefix + CodeAndText(err, stderr)
  }

  /**
   * The resolved run `(err, stdout, stderr)`, with `stdout` already decoded
   * (`None` when it does not decode to an array).
   */
  function Classify(err: int, decoded: Option<Decoded>, stderr: string): (r: Result<ParseData, ParseError>)
    ensures r.Err? && r.error.SyntaxError? <==> err == 1 && SyntaxErrorLine(stderr).Some?
    ensures r.Err? && r.error.SyntaxError? ==> r.error == SyntaxError(SyntaxErrorLine(stderr).value, stderr)
    ensures err != 0 && !(err == 1 && SyntaxErrorLine(stderr).Some?) ==> r == Err(ParseFailed(FailureMessage(err, stderr)))
    ensures err == 0 && decoded.None? ==> r == Err(ParseFailed(DecodeFailure))
    ensures r == Err(NotAnArray) <==> err == 0 && decoded.Some? && (decoded.value.tree.None? || decoded.value.stream.None?)
    ensures r.Ok? <==> err == 0 && decoded.Some? && decoded.value.tree.Some? && decoded.value.stream.Some?
    ensures r.Ok? ==> r.value == ParseData(decoded.value.tree.value, decoded.value.stream.value)
  {
    if err != 0 then
      if err == 1 && SyntaxErrorLine(stderr).Some? then
        Err(SyntaxError(SyntaxErrorLine(stderr).value, stderr))
      else
        Err(ParseFailed(FailureMessage(err, stderr)))
    else if decoded.None? then
      Err(ParseFailed(DecodeFailure))
    else if decoded.value.tree.None? || decoded.value.stream.None? then
      Err(NotAnArray)
    else
      Ok(ParseData(decoded.value.tree.value, decoded.value.stream.value))
  }

  /** Reads exit code and error output back from a failure message. */
  function ParseFailureMessage(message: string): Option<(int, string)>
  {
    if FailedPrefix <= message then ParseCodeAndText(message[|FailedPrefix|..]) else None
  }

  /** The failure message carries the exit code and the error output, recoverably. */
  lemma FailureMessageRoundTrip(err: int, stderr: string)
    ensures ParseFailureMessage(FailureMessage(err, stderr)) == Some((err, stderr))
  {
    assert FailureMessage(err, stderr)[|FailedPrefix|..] == CodeAndText(err, stderr);
    CodeAndTextRoundTrip(err, stderr);
  }

  // ---------------------------------------------------------------------
  // evalStaticString
  // ---------------------------------------------------------------------

  /** The fragment as handed to the parser: an open tag, the text without trailing `;`, one `;`. */
  function WrapFragment(s: string): string
  {
    "<?php " + RTrim(s, ';') + ";"
  }

  /**
   * The wrapped text is the open tag, the fragment cut before its trailing
   * semicolons, and exactly one semicolon.
   */
  lemma WrapShape(s: string)
    ensures exists t, n :: && WrapFragment(s) == "<?php " + t + ";"
                           && s == t + Repeat(";", n)
                           && (t == [] || t[|t| - 1] != ';')
  {
    var t := RTrim(s, ';');
    var n := |s| - |t|;
    assert s == t + s[|t|..];
    assert s[|t|..] == Repeat(";", n) by {
      RepeatChars(";", n);
    }
  }

  lemma {:induction false} RepeatChars(s: string, n: nat)
    requires |s| == 1
    ensures forall i :: 0 <= i < n ==> Repeat(s, n)[i] == s[0]
  {
    if n > 0 {
      RepeatChars(s, n - 1);
    }
  }

  /** Fragments that differ only in trailing semicolons wrap identically. */
  lemma {:induction false} WrapIgnoresSemicolons(s: string, n: nat)
    ensures WrapFragment(s + Repeat(";", n)) == WrapFragment(s)
    decreases n
  {
    if n > 0 {
      assert Repeat(";", n) == ";" + Repeat(";", n - 1);
      assert s + Repeat(";", n) == (s + ";") + Repeat(";", n - 1);
      WrapIgnoresSemicolons(s + ";", n - 1);
      RTrimStep(s);
      assert WrapFragment(s + ";") == WrapFragment(s);
    } else {
      assert s + Repeat(";", n) == s;
    }
  }

  /** One more trailing semicolon is trimmed away. */
  lemma RTrimStep(s: string)
    ensures RTrim(s + ";", ';') == RTrim(s, ';')
  {
    assert (s + ";")[..|s|] == s;
  }

  /** Why `evalStaticString` gives no value. */
  datatype EvalError = Unparsed(reason: ParseError) | NotOneStatement

  /**
   * `evalStaticString(s)`: wrap `s`, run the parser on it (`parse`: the
   * classified result for a text), take the `n_STATEMENT` descendants of
   * the root (`statements`) and, when there is exactly one, evaluate it
   * (`evalStatic`).
   */
  function EvalStaticString<V>(s: string, parse: string -> Result<ParseData, ParseError>,
                               statements: NodeDesc -> seq<NodeDesc>, evalStatic: NodeDesc -> V): (r: Result<V, EvalError>)
    ensures r.Ok? <==> parse(WrapFragment(s)).Ok? && |statements(parse(WrapFragment(s)).value.root)| == 1
    ensures r.Ok? ==> r.value == evalStatic(statements(parse(WrapFragment(s)).value.root)[0])
    ensures parse(WrapFragment(s)).Err? ==> r == Err(Unparsed(parse(WrapFragment(s)).error))
    ensures parse(WrapFragment(s)).Ok? && |statements(parse(WrapFragment(s)).value.root)| != 1 ==> r == Err(NotOneStatement)
  {
    match parse(WrapFragment(s))
    case Err(e) => Err(Unparsed(e))
    case Ok(data) =>
      var found := statements(data.root);
      if |found| != 1 then Err(NotOneStatement) else Ok(evalStatic(found[0]))
  }

  /** Trailing semicolons never change what `evalStaticString` gives. */
  lemma EvalIgnoresSemicolons<V>(s: string, n: nat, parse: string -> Result<ParseData, ParseError>,
                                 statements: NodeDesc -> seq<NodeDesc>, evalStatic: NodeDesc -> V)
    ensures EvalStaticString(s + Repeat(";", n), parse, statements, evalStatic)
         == EvalStaticString(s, parse, statements, evalStatic)
  {
    WrapIgnoresSemicolons(s, n);
  }
}
