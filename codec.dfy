/**
 * The result code: the `r` query parameter that carries a visitor's answers
 * as `name=value` pairs joined by `&`, so that a result can be reloaded or
 * shared without a server.
 */
module Codec {
  import opened Wrappers
  import opened Strings

  /**
   * One answer, shaped like the `{name, value}` objects jQuery's
   * `serializeArray` yields on submit. Decoding leaves `value` absent when a
   * segment holds no `=`.
   */
  datatype Answer = Answer(name: string, value: Option<string>)

  /**
   * `a` is what the segment `seg` denotes: `a.name` is the text before the
   * first `=` (all of `seg` when there is none) and `a.value` the text
   * between the first `=` and the second `=` or the end.
   */
  predicate SegmentDenotes(seg: string, a: Answer)
  {
    && |a.name| <= |seg| && seg[..|a.name|] == a.name && '=' !in a.name
    && (a.value.None? ==> a.name == seg)
    && (a.value.Some? ==>
          var start := |a.name| + 1;
          var v := a.value.value;
          && start + |v| <= |seg| && seg[|a.name|] == '='
          && seg[start..start + |v|] == v && '=' !in v
          && (start + |v| == |seg| || seg[start + |v|] == '='))
  }

  /** One `&`-separated segment split at `=` into name and value. */
  function DecodeSegment(seg: string): (a: Answer)
    ensures SegmentDenotes(seg, a)
  {
    var parts := Split(seg, '=');
    if |parts| >= 2 then
      JoinUnfold(parts, '=');
      if |parts| >= 3 then JoinUnfold(parts[1..], '='); Answer(parts[0], Some(parts[1]))
      else Answer(parts[0], Some(parts[1]))
    else Answer(parts[0], None)
  }

  /**
   * The answers a result code stands for: absent (`false` in the source) when
   * the code is missing or empty, else one answer per `&`-separated segment,
   * in order.
   */
  function Decode(code: Option<string>): (answers: Option<seq<Answer>>)
    ensures answers.None? <==> code.None? || code.value == ""
    ensures answers.Some? ==>
              var segments := Split(code.value, '&');
              && |answers.value| == |segments|
              && forall k :: 0 <= k < |segments| ==> SegmentDenotes(segments[k], answers.value[k])
  {
    if code.None? || code.value == "" then None
    else
      var segments := Split(code.value, '&');
      Some(seq(|segments|, k requires 0 <= k < |segments| => DecodeSegment(segments[k])))
  }

  /** Text that cannot be confused with the code's separators. */
  predicate Plain(s: string) { '&' !in s && '=' !in s }

  /**
   * The code a form submission produces: `name=value` per answered field,
   * joined by `&`, as jQuery's `serialize` writes it for plain text.
   */
  function Encode(fields: seq<Answer>): string
    requires forall k :: 0 <= k < |fields| ==> fields[k].value.Some?
  {
    Join(seq(|fields|, k requires 0 <= k < |fields| => fields[k].name + "=" + fields[k].value.value), '&')
  }

  /**
   * Decoding the code of a submission gives back the submitted answers, in
   * order, when there is at least one and no name or value holds `&` or `=`.
   */
  lemma DecodeEncode(fields: seq<Answer>)
    requires |fields| >= 1
    requires forall k :: 0 <= k < |fields| ==> fields[k].value.Some? && Plain(fields[k].name) && Plain(fields[k].value.value)
    ensures Decode(Some(Encode(fields))) == Some(fields)
  {
    var segments := seq(|fields|, k requires 0 <= k < |fields| => fields[k].name + "=" + fields[k].value.value);
    var code := Encode(fields);
    forall k | 0 <= k < |segments|
      ensures '&' !in segments[k]
      ensures DecodeSegment(segments[k]) == fields[k]
    {
      var a := fields[k];
      assert Join([a.name, a.value.value], '=') == segments[k];
      SplitJoin([a.name, a.value.value], '=');
    }
    SplitJoin(segments, '&');
    if |segments| >= 2 {
      JoinUnfold(segments, '&');
    }
    assert code[..|segments[0]|] == segments[0];
    assert code != "";
    var decoded := Decode(Some(code)).value;
    assert |decoded| == |fields|;
    assert forall k :: 0 <= k < |fields| ==> decoded[k] == DecodeSegment(segments[k]) == fields[k];
    assert decoded == fields;
  }

  /**
   * A submission with no answers leaves an empty code, which decodes to no
   * result: reloading then shows the questionnaire, not the all-zero result
   * the submission displayed.
   */
  lemma EmptySubmissionNotRestored()
    ensures Encode([]) == ""
    ensures Decode(Some(Encode([]))) == None
  {
  }
}
