/** Removing Itanium ABI tags from a demangled name in one pass. */
module AbiTags {
  import opened Sequences
  import opened Wrappers

  const TAG := "[abi:"

  predicate TagAt(name: string, i: nat) {
    i + |TAG| <= |name| && name[i..i + |TAG|] == TAG
  }

  ghost predicate NoTag(name: string) {
    forall i: nat :: !TagAt(name, i)
  }

  /** Where the leftmost tag from `from` on starts. */
  function FirstTag(name: string, from: nat): (first: Option<nat>)
    requires from <= |name|
    ensures first.Some? ==> from <= first.value && TagAt(name, first.value)
    ensures forall i: nat :: from <= i && TagAt(name, i) ==> first.Some? && first.value <= i
    decreases |name| - from
  {
    if TagAt(name, from) then Some(from)
    else if from == |name| then None
    else FirstTag(name, from + 1)
  }

  /** Where the first `]` stands. */
  function Closing(text: string): (close: Option<nat>)
    ensures close.Some? ==> close.value < |text| && text[close.value] == ']'
    ensures close.None? ==> ']' !in text
    ensures forall i :: 0 <= i < |text| && text[i] == ']' ==> close.Some? && close.value <= i
  {
    if text == "" then None
    else if text[0] == ']' then Some(0)
    else
      var later := Closing(text[1..]);
      if later.Some? then Some(later.value + 1) else None
  }

  /** The name without the tag at `at`, if that one is closed. */
  function Cut(name: string, at: nat): Option<string>
    requires at + |TAG| <= |name|
  {
    var after := name[at + |TAG|..];
    var close := Closing(after);
    if close.None? then None else Some(name[..at] + after[close.value + 1..])
  }

  /** The name without its leftmost tag, if it has one and that one is closed. */
  function WithoutFirst(name: string): Option<string> {
    var first := FirstTag(name, 0);
    if first.None? then None else Cut(name, first.value)
  }

  /** Deleting the leftmost tag again and again, until there is none or it is unclosed. */
  function Stripped(name: string): string
    decreases |name|
  {
    var shorter := WithoutFirst(name);
    if shorter.None? then name else Stripped(shorter.value)
  }

  /** What stripping leaves: no tag, or one that nothing closes. */
  lemma {:induction false} StrippedIsClean(name: string)
    ensures var stripped := Stripped(name);
            || NoTag(stripped)
            || exists i: nat :: TagAt(stripped, i) && ']' !in stripped[i + |TAG|..] && NoTag(stripped[..i])
    decreases |name|
  {
    var shorter := WithoutFirst(name);
    if shorter.Some? {
      StrippedIsClean(shorter.value);
    } else {
      var first := FirstTag(name, 0);
      if first.Some? {
        NoTagBefore(name, first.value);
        assert TagAt(name, first.value) && ']' !in name[first.value + |TAG|..];
      }
    }
  }

  lemma NoTagBefore(name: string, first: nat)
    requires first <= |name| && forall i: nat :: TagAt(name, i) ==> first <= i
    ensures NoTag(name[..first])
  {
    forall i: nat
      ensures !TagAt(name[..first], i)
    {
      if TagAt(name[..first], i) {
        SliceOfPrefix(name[..first], name[first..], i, i + |TAG|);
        assert name[..first] + name[first..] == name;
        assert TagAt(name, i);
      }
    }
  }

  /** Stripping a stripped name changes nothing. */
  lemma {:induction false} StrippingTwice(name: string)
    ensures Stripped(Stripped(name)) == Stripped(name)
    decreases |name|
  {
    var shorter := WithoutFirst(name);
    if shorter.Some? {
      StrippingTwice(shorter.value);
    }
  }

  /** A tag begins with a bracket. */
  lemma NoBracketNoTag(name: string)
    requires '[' !in name
    ensures NoTag(name) && Stripped(name) == name
  {
    forall i: nat
      ensures !TagAt(name, i)
    {
      if i + |TAG| <= |name| {
        assert name[i] in name;
        assert name[i..i + |TAG|][0] == name[i];
      }
    }
    assert FirstTag(name, 0).None?;
  }

  /** Where the only bracket before the tag's text is, the leftmost tag is. */
  lemma OnlyTag(before: string, rest: string)
    requires '[' !in before
    ensures FirstTag(before + "[abi:" + rest, 0) == Some(|before|)
  {
    var name := before + "[abi:" + rest;
    assert name[|before|..|before| + 5] == "[abi:";
    assert TagAt(name, |before|);
    forall i: nat | i < |before|
      ensures !TagAt(name, i)
    {
      assert name[i] == before[i] && before[i] in before;
      if i + |TAG| <= |name| {
        assert name[i..i + |TAG|][0] == name[i];
      }
    }
  }

  lemma ClosesAt(inner: string, after: string)
    requires ']' !in inner
    ensures Closing(inner + "]" + after) == Some(|inner|)
  {
    var text := inner + "]" + after;
    assert text[|inner|] == ']';
    forall i | 0 <= i < |inner|
      ensures text[i] != ']'
    {
      assert text[i] == inner[i] && inner[i] in inner;
    }
  }

  /** A closed tag with plain text around it is taken out, and an unclosed one is left alone. */
  lemma OneTag(before: string, inner: string, after: string)
    requires '[' !in before && ']' !in inner && '[' !in after
    ensures Stripped(before + "[abi:" + inner + "]" + after) == before + after
    ensures Stripped(before + "[abi:" + inner) == before + "[abi:" + inner
  {
    var rest := inner + "]" + after;
    var name := before + "[abi:" + rest;
    assert name == before + "[abi:" + inner + "]" + after;
    OnlyTag(before, rest);
    assert name[|before| + 5..] == rest && name[..|before|] == before;
    ClosesAt(inner, after);
    assert rest[|inner| + 1..] == after;
    assert WithoutFirst(name) == Some(before + after);
    NoBracketNoTag(before + after);
    var unclosed := before + "[abi:" + inner;
    OnlyTag(before, inner);
    assert unclosed[|before| + 5..] == inner;
    assert WithoutFirst(unclosed) == None;
  }

  predicate EndsWithTag(text: string) {
    |text| >= |TAG| && text[|text| - |TAG|..] == TAG
  }

  lemma PrefixHasNoTag(text: string, n: nat)
    requires NoTag(text) && n <= |text|
    ensures NoTag(text[..n])
  {
    NoTagBefore(text, n);
  }

  /** A character added to a text without tags makes one only at the text's end. */
  lemma TagOnlyAtEnd(text: string, c: char, i: nat)
    requires NoTag(text) && TagAt(text + [c], i)
    ensures EndsWithTag(text + [c]) && i + |TAG| == |text| + 1
  {
    if i + |TAG| <= |text| {
      assert (text + [c])[i..i + |TAG|] == text[i..i + |TAG|];
      assert TagAt(text, i);
    }
  }

  /** The tag a text ends with is the leftmost one of the whole name. */
  lemma EndIsLeftmost(text: string, rest: string)
    requires EndsWithTag(text) && NoTag(text[..|text| - 1])
    ensures FirstTag(text + rest, 0) == Some(|text| - |TAG|)
  {
    var whole, at := text + rest, |text| - |TAG|;
    SliceOfPrefix(text, rest, at, |text|);
    assert TagAt(whole, at);
    forall i: nat | i < at
      ensures !TagAt(whole, i)
    {
      var start := text[..|text| - 1];
      assert whole == start + ([text[|text| - 1]] + rest);
      SliceOfPrefix(start, [text[|text| - 1]] + rest, i, i + |TAG|);
      assert !TagAt(start, i);
    }
  }

  /** One removal of the pass is one removal of the leftmost tag. */
  lemma RemovalIsLeftmost(text: string, rest: string)
    requires EndsWithTag(text) && NoTag(text[..|text| - 1])
    ensures WithoutFirst(text + rest)
         == var close := Closing(rest);
            if close.None? then None else Some(text[..|text| - |TAG|] + rest[close.value + 1..])
  {
    EndIsLeftmost(text, rest);
    CutAtEnd(text, rest, |text| - |TAG|);
  }

  lemma CutAtEnd(text: string, rest: string, at: nat)
    requires at + |TAG| == |text|
    ensures Cut(text + rest, at)
         == var close := Closing(rest);
            if close.None? then None else Some(text[..at] + rest[close.value + 1..])
  {
    RestOfJoined(text, rest);
    SliceOfPrefix(text, rest, 0, at);
    assert (text + rest)[at + |TAG|..] == rest;
    assert (text + rest)[..at] == text[..at];
  }

  lemma NotEnded(text: string, c: char)
    requires NoTag(text) && !EndsWithTag(text + [c])
    ensures NoTag(text + [c])
  {
    forall i: nat
      ensures !TagAt(text + [c], i)
    {
      if TagAt(text + [c], i) {
        TagOnlyAtEnd(text, c, i);
      }
    }
  }

  /** The pass stands between `text` and `rest`, with no tag left behind it and nothing lost. */
  ghost predicate Reached(name: string, text: string, rest: string) {
    NoTag(text) && Stripped(text + rest) == Stripped(name)
  }

  /** A character that completes no tag. */
  lemma PassMoves(name: string, text: string, rest: string)
    requires Reached(name, text, rest) && rest != "" && !EndsWithTag(text + [rest[0]])
    ensures Reached(name, text + [rest[0]], rest[1..])
  {
    HeadMoved(text, rest);
    NotEnded(text, rest[0]);
  }

  /** A character that completes a tag. */
  lemma PassRemoves(name: string, text: string, rest: string)
    requires Reached(name, text, rest) && rest != "" && EndsWithTag(text + [rest[0]])
    ensures var (longer, after) := (text + [rest[0]], rest[1..]);
            var close := Closing(after);
            if close.None? then longer + after == Stripped(name)
            else Reached(name, longer[..|longer| - |TAG|], after[close.value + 1..])
  {
    HeadMoved(text, rest);
    var longer := text + [rest[0]];
    RemovalIsLeftmost(longer, rest[1..]);
    PrefixHasNoTag(text, |longer| - |TAG|);
    SliceOfPrefix(text, [rest[0]], 0, |longer| - |TAG|);
  }

  lemma PassBegins(name: string)
    ensures Reached(name, "", name)
  {
    assert "" + name == name;
  }

  lemma PassEnds(name: string, text: string)
    requires Reached(name, text, "")
    ensures text == Stripped(name)
  {
    assert text + "" == text;
    assert FirstTag(text, 0).None?;
  }

  /** `strip_abi_tags`. */
  method StripAbiTags(name: string) returns (stripped: string)
    ensures stripped == Stripped(name)
  {
    var text, rest := "", name;
    PassBegins(name);
    while rest != ""
      invariant Reached(name, text, rest)
      decreases |rest|
    {
      var longer, after := text + [rest[0]], rest[1..];
      if EndsWithTag(longer) {
        PassRemoves(name, text, rest);
        var close := Closing(after);
        if close.None? {
          return longer + after;
        }
        text, rest := longer[..|longer| - |TAG|], after[close.value + 1..];
      } else {
        PassMoves(name, text, rest);
        text, rest := longer, after;
      }
    }
    PassEnds(name, text);
    return text;
  }
}
