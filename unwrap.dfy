/** `EUnwrap`: the text between a prefix and the first suffix after it. */
module Unwrap {
  import opened Entry
  import opened Text

  /** Where the extracted text starts: just after the first occurrence of the
      prefix. An absent prefix is not an error: `indexOf` gives -1, so the
      text starts at `|prefix| - 1`. */
  function UnwrapStart(value: string, prefix: string): (start: nat)
    ensures prefix == [] ==> start == 0
    ensures IndexOf(value, prefix) == -1 ==> start == |prefix| - 1
    ensures IndexOf(value, prefix) != -1 ==> MatchAt(value, prefix, start - |prefix|)
    ensures IndexOf(value, prefix) != -1 ==>
      forall k :: 0 <= k < start - |prefix| ==> !MatchAt(value, prefix, k)
  {
    assert prefix == [] ==> MatchAt(value, prefix, 0);
    IndexOf(value, prefix) + |prefix|
  }

  function UnwrapMessage(value: string, prefix: string, suffix: string): string
  {
    "Failed to unwrap value:'" + value + "' with prefix:'" + prefix + "' and suffix:'" + suffix + "'"
  }

  /** `new EUnwrap(value, prefix, suffix).value()`: `value.substring(start,
      value.indexOf(suffix, start))`, where a substring out of bounds becomes
      a failure naming the value, the prefix and the suffix. It succeeds exactly
      when the suffix occurs at or after `start`, and then yields the text from
      `start` up to the first such occurrence, which holds no occurrence of the
      suffix that starts before it. */
  function EUnwrap(value: string, prefix: string, suffix: string): (r: Result<string>)
    ensures r.Err? <==> forall k :: UnwrapStart(value, prefix) <= k ==> !MatchAt(value, suffix, k)
    ensures r.Err? ==> r.error == Failure(UnwrapMessage(value, prefix, suffix))
    ensures r.Ok? ==>
      var start, end := UnwrapStart(value, prefix), UnwrapStart(value, prefix) + |r.value|;
      && end <= |value|
      && r.value == value[start..end]
      && MatchAt(value, suffix, end)
      && forall k :: start <= k < end ==> !MatchAt(value, suffix, k)
  {
    var start := UnwrapStart(value, prefix);
    var end := IndexOfFrom(value, suffix, start);
    if 0 <= start <= end <= |value| then Ok(value[start..end])
    else Err(Failure(UnwrapMessage(value, prefix, suffix)))
  }

  /** `new EUnwrap(value).value()`: braces. */
  function EUnwrapBraces(value: string): Result<string>
  {
    EUnwrap(value, "{", "}")
  }

  /** On success the text contains no whole occurrence of a non-empty suffix. */
  lemma UnwrappedHasNoSuffix(value: string, prefix: string, suffix: string)
    requires suffix != [] && EUnwrap(value, prefix, suffix).Ok?
    ensures forall j :: !MatchAt(EUnwrap(value, prefix, suffix).value, suffix, j)
  {
    var start := UnwrapStart(value, prefix);
    var v := EUnwrap(value, prefix, suffix).value;
    var end := start + |v|;
    assert v == value[start..end];
    forall j | MatchAt(v, suffix, j) ensures false {
      MatchInSuffix(value[..end], suffix, start, j) by {
        assert value[..end][start..] == v;
      }
      MatchInPrefix(value, suffix, end, start + j);
    }
  }

  /** Round trip: wrapping a text that has no `c` between a prefix and `c`,
      then unwrapping, gives the text back. */
  lemma UnwrapRoundTrip(prefix: string, x: string, c: char)
    requires c !in x
    ensures EUnwrap(prefix + x + [c], prefix, [c]) == Ok(x)
  {
    var s := prefix + x + [c];
    assert s[0..|prefix|] == prefix;
    FirstMatch(s, prefix, 0, 0);
    var end := |prefix| + |x|;
    MatchAtChar(s, c, end);
    forall k | |prefix| <= k < end ensures !MatchAt(s, [c], k) {
      MatchAtChar(s, c, k);
      assert s[k] == x[k - |prefix|];
    }
    FirstMatch(s, [c], |prefix|, end);
    assert s[|prefix|..end] == x;
  }

  /** The placeholder markers of the interpolation grammar. */
  lemma PlaceholderRoundTrip(x: string)
    requires '}' !in x
    ensures EUnwrap("${" + x + "}", "${", "}") == Ok(x)
  {
    UnwrapRoundTrip("${", x, '}');
  }

  /** The one-argument form takes the text between braces. */
  lemma BracesRoundTrip(x: string)
    requires '}' !in x
    ensures EUnwrapBraces("{" + x + "}") == Ok(x)
  {
    UnwrapRoundTrip("{", x, '}');
  }

  /** An absent prefix shifts the start to `|prefix| - 1`: with prefix `{`
      the text starts at index 0, with prefix `ab` at index 1. */
  lemma AbsentPrefix(v: string, w: string)
    requires v == "abc}" && w == "xay}"
    ensures EUnwrapBraces(v) == Ok("abc")
    ensures EUnwrap(w, "ab", "}") == Ok("ay")
  {
    CharAbsent(v, '{');
    FirstChar(v, '}', 3);
    assert v[0..3] == "abc";
    forall k ensures !MatchAt(w, "ab", k) {
      if 0 <= k && k + 2 <= |w| {
        assert w[k..k + 2][1] == w[k + 1];
      }
    }
    forall j | 1 <= j < 3 ensures !MatchAt(w, "}", j) {
      MatchAtChar(w, '}', j);
    }
    MatchAtChar(w, '}', 3);
    FirstMatch(w, "}", 1, 3);
    assert IndexOf(w, "ab") == -1;
    assert w[1..3] == "ay";
  }

  /** A missing suffix fails with the message naming all three texts. */
  lemma MissingSuffix(v: string)
    requires v == "{abc"
    ensures EUnwrap(v, "{", "}") == Err(Failure(UnwrapMessage(v, "{", "}")))
  {
    CharAbsent(v, '}');
  }
}
