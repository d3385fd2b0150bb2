/**
 * The loop in `chat` that turns the streamed chat-completion response into
 * text. The body is split on `'\n'`; only lines starting with `data: {` are
 * considered, and their payload (the line from offset 6) is JSON. Decoding
 * JSON is a library call, so it enters as the function `decode`, which
 * classifies a payload by what the loop's body would make of it.
 */
module StreamDecode {
  import opened Results
  import opened Text

  /**
   * What the loop finds in one payload:
   * - `Malformed`: `json.loads` raises; it sits outside the `try`, so the
   *   error escapes the loop and the call.
   * - `BadShape`: `choices` missing or empty or `delta` not an object, or any
   *   other failure inside the `try`, which the bare `except` swallows.
   * - `Delta(content)`: the first choice's `delta.content`, absent as `None`.
   */
  datatype Payload = Malformed | BadShape | Delta(content: Option<string>)

  /** The `json.JSONDecodeError` that escapes `chat`, with the payload it choked on. */
  datatype StreamError = MalformedChunk(payload: string)

  const EventPrefix := "data: {"

  /** A line the loop looks at. */
  predicate IsEvent(line: string) {
    StartsWith(line, EventPrefix)
  }

  /** `line[6:]`: the JSON text of an event line, from its `{` on. */
  function PayloadOf(line: string): (p: string)
    requires IsEvent(line)
    ensures p != [] && p[0] == '{' && line == "data: " + p
  {
    assert line[6] == EventPrefix[6];
    line[6..]
  }

  /** What a well-formed payload adds to the result: its content when truthy, else a newline. */
  function Contribution(p: Payload): string
    requires !p.Malformed?
  {
    match p
    case BadShape => []
    case Delta(c) => if c.Some? && c.value != [] then c.value else "\n"
  }

  /** One turn of the loop on the accumulated result. */
  function Step(acc: Result<string, StreamError>, line: string, decode: string -> Payload): Result<string, StreamError> {
    if acc.Err? || !IsEvent(line) then acc
    else
      var p := decode(PayloadOf(line));
      if p.Malformed? then Err(MalformedChunk(PayloadOf(line)))
      else Ok(acc.value + Contribution(p))
  }

  /** The result after the loop has run over `lines`. */
  function Decoded(lines: seq<string>, decode: string -> Payload): Result<string, StreamError> {
    if lines == [] then Ok([])
    else Step(Decoded(lines[..|lines| - 1], decode), lines[|lines| - 1], decode)
  }

  /** The loop of `chat` over the response text. */
  method DecodeStream(text: string, decode: string -> Payload) returns (r: Result<string, StreamError>)
    ensures r == Decoded(Split(text, '\n'), decode)
  {
    var lines := Split(text, '\n');
    var result: string := [];
    var i := 0;
    while i < |lines|
      invariant 0 <= i <= |lines|
      invariant Decoded(lines[..i], decode) == Ok(result)
    {
      var line := lines[i];
      assert lines[..i + 1][..i] == lines[..i] && lines[..i + 1][i] == line;
      assert Decoded(lines[..i + 1], decode) == Step(Decoded(lines[..i], decode), line, decode);
      if StartsWith(line, EventPrefix) {
        var json := line[6..];
        var completion := decode(json);
        if completion.Malformed? {
          assert lines[..i + 1] + lines[i + 1..] == lines;
          DecodedAppend(lines[..i + 1], lines[i + 1..], decode);
          return Err(MalformedChunk(json));
        }
        if completion.Delta? {
          if completion.content.Some? && completion.content.value != [] {
            result := result + completion.content.value;
          } else {
            result := result + "\n";
          }
        } else {
          assert result + Contribution(completion) == result;
        }
      }
      i := i + 1;
    }
    assert lines[..i] == lines;
    r := Ok(result);
  }

  /** How the results of two stretches of lines combine. */
  function Then(a: Result<string, StreamError>, b: Result<string, StreamError>): Result<string, StreamError> {
    if a.Err? then a else if b.Err? then b else Ok(a.value + b.value)
  }

  /** The result is the in-order combination of the results of any two halves. */
  lemma {:induction false} DecodedAppend(a: seq<string>, b: seq<string>, decode: string -> Payload)
    ensures Decoded(a + b, decode) == Then(Decoded(a, decode), Decoded(b, decode))
    decreases |b|
  {
    if b == [] {
      assert a + b == a;
      assert Decoded(a, decode).Ok? ==> Decoded(a, decode).value + [] == Decoded(a, decode).value;
    } else {
      var b' := b[..|b| - 1];
      var y := b[|b| - 1];
      assert (a + b)[..|a + b| - 1] == a + b';
      assert (a + b)[|a + b| - 1] == y;
      DecodedAppend(a, b', decode);
      var da, db' := Decoded(a, decode), Decoded(b', decode);
      if da.Ok? && db'.Ok? && IsEvent(y) && !decode(PayloadOf(y)).Malformed? {
        assert (da.value + db'.value) + Contribution(decode(PayloadOf(y)))
            == da.value + (db'.value + Contribution(decode(PayloadOf(y))));
      }
    }
  }

  /** Decoding a single line. */
  lemma DecodedSingle(line: string, decode: string -> Payload)
    ensures Decoded([line], decode) ==
      if !IsEvent(line) then Ok([])
      else if decode(PayloadOf(line)).Malformed? then Err(MalformedChunk(PayloadOf(line)))
      else Ok(Contribution(decode(PayloadOf(line))))
  {
    assert [line][..0] == [];
    if IsEvent(line) && !decode(PayloadOf(line)).Malformed? {
      assert [] + Contribution(decode(PayloadOf(line))) == Contribution(decode(PayloadOf(line)));
    }
  }

  /** A line that is not an event may be inserted anywhere without changing the outcome. */
  lemma IgnoredLine(before: seq<string>, line: string, after: seq<string>, decode: string -> Payload)
    requires !IsEvent(line)
    ensures Decoded(before + [line] + after, decode) == Decoded(before + after, decode)
  {
    DecodedAppend(before + [line], after, decode);
    DecodedAppend(before, [line], decode);
    DecodedSingle(line, decode);
    assert Decoded(before, decode).Ok? ==> Decoded(before, decode).value + [] == Decoded(before, decode).value;
    DecodedAppend(before, after, decode);
  }

  /**
   * What an event line with payload `p` does wherever it stands: a malformed
   * payload ends decoding with its error, a shape error adds nothing,
   * non-empty content is added verbatim, and absent or empty content adds a
   * newline.
   */
  lemma EventLineInserted(before: seq<string>, p: string, after: seq<string>, decode: string -> Payload)
    requires p != [] && p[0] == '{'
    ensures var lines, d := before + ["data: " + p] + after, decode(p);
      (d.Malformed? ==> Decoded(lines, decode) == Then(Decoded(before, decode), Err(MalformedChunk(p)))) &&
      (d.BadShape? ==> Decoded(lines, decode) == Decoded(before + after, decode)) &&
      (d.Delta? && d.content.Some? && d.content.value != [] ==>
        Decoded(lines, decode) == Then(Then(Decoded(before, decode), Ok(d.content.value)), Decoded(after, decode))) &&
      (d.Delta? && (d.content.None? || d.content.value == []) ==>
        Decoded(lines, decode) == Then(Then(Decoded(before, decode), Ok("\n")), Decoded(after, decode)))
  {
    var line := "data: " + p;
    EventLine(p);
    DecodedAppend(before + [line], after, decode);
    DecodedAppend(before, [line], decode);
    DecodedSingle(line, decode);
    if decode(p).BadShape? {
      assert Decoded(before, decode).Ok? ==> Decoded(before, decode).value + [] == Decoded(before, decode).value;
      DecodedAppend(before, after, decode);
    }
  }

  /** Decoding fails exactly when some event line's payload is malformed JSON. */
  lemma {:induction false} DecodedFailsIff(lines: seq<string>, decode: string -> Payload)
    ensures Decoded(lines, decode).Err? <==>
      exists i :: 0 <= i < |lines| && IsEvent(lines[i]) && decode(PayloadOf(lines[i])).Malformed?
  {
    if lines != [] {
      var init := lines[..|lines| - 1];
      DecodedFailsIff(init, decode);
      if Decoded(lines, decode).Err? && Decoded(init, decode).Ok? {
        assert IsEvent(lines[|lines| - 1]) && decode(PayloadOf(lines[|lines| - 1])).Malformed?;
      }
      if exists i :: 0 <= i < |lines| && IsEvent(lines[i]) && decode(PayloadOf(lines[i])).Malformed? {
        var i :| 0 <= i < |lines| && IsEvent(lines[i]) && decode(PayloadOf(lines[i])).Malformed?;
        if i < |lines| - 1 {
          assert init[i] == lines[i];
        }
      }
    }
  }

  /** When several payloads are malformed, the error reports the first of them. */
  lemma {:induction false} DecodedErrorIsFirst(lines: seq<string>, k: nat, decode: string -> Payload)
    requires k < |lines| && IsEvent(lines[k]) && decode(PayloadOf(lines[k])).Malformed?
    requires forall i :: 0 <= i < k ==> !(IsEvent(lines[i]) && decode(PayloadOf(lines[i])).Malformed?)
    ensures Decoded(lines, decode) == Err(MalformedChunk(PayloadOf(lines[k])))
  {
    var pre, post := lines[..k], lines[k + 1..];
    assert lines == pre + [lines[k]] + post;
    assert forall i :: 0 <= i < |pre| ==> pre[i] == lines[i];
    DecodedFailsIff(pre, decode);
    DecodedAppend(pre + [lines[k]], post, decode);
    DecodedAppend(pre, [lines[k]], decode);
    DecodedSingle(lines[k], decode);
  }

  /**
   * A line that is not an event appended to the response text, after a
   * newline, leaves the outcome unchanged.
   */
  lemma IgnoredTrailingLine(text: string, line: string, decode: string -> Payload)
    requires '\n' !in line && !IsEvent(line)
    ensures Decoded(Split(text + "\n" + line, '\n'), decode) == Decoded(Split(text, '\n'), decode)
  {
    assert text + "\n" + line == text + ['\n'] + line;
    SplitAppend(text, line, '\n');
    SplitNoSep(line, '\n');
    IgnoredLine(Split(text, '\n'), line, [], decode);
    assert Split(text, '\n') + [line] + [] == Split(text, '\n') + [line];
    assert Split(text, '\n') + [] == Split(text, '\n');
  }

  /** `"data: " + p` is an event line whose payload is `p`, when `p` starts with `{`. */
  lemma EventLine(p: string)
    requires p != [] && p[0] == '{'
    ensures IsEvent("data: " + p) && PayloadOf("data: " + p) == p
  {
  }

  /**
   * A content fragment followed by an empty delta decodes to the fragment
   * and a newline.
   */
  lemma FragmentThenEmpty(p1: string, frag: string, p2: string, decode: string -> Payload)
    requires p1 != [] && p1[0] == '{' && decode(p1) == Delta(Some(frag)) && frag != []
    requires p2 != [] && p2[0] == '{' && decode(p2) == Delta(None)
    ensures Decoded(["data: " + p1, "data: " + p2], decode) == Ok(frag + "\n")
  {
    var l1, l2 := "data: " + p1, "data: " + p2;
    EventLine(p1);
    EventLine(p2);
    DecodedAppend([l1], [l2], decode);
    DecodedSingle(l1, decode);
    DecodedSingle(l2, decode);
    assert [l1] + [l2] == [l1, l2];
  }

  const FooChunk := "{\"choices\":[{\"delta\":{\"content\":\"foo\"}}]}"
  const EmptyDeltaChunk := "{\"choices\":[{\"delta\":{}}]}"

  /** The same on the chunks `{"choices":[{"delta":{"content":"foo"}}]}` and `{"choices":[{"delta":{}}]}`. */
  lemma FragmentThenEmptyDelta(decode: string -> Payload)
    requires decode(FooChunk) == Delta(Some("foo"))
    requires decode(EmptyDeltaChunk) == Delta(None)
    ensures Decoded(["data: " + FooChunk, "data: " + EmptyDeltaChunk], decode) == Ok("foo\n")
  {
    FragmentThenEmpty(FooChunk, "foo", EmptyDeltaChunk, decode);
    assert "foo" + "\n" == "foo\n";
  }
}
