/**
 * The tag stripping of text sections: `re.sub('<.*?>', '', text)`.
 *
 * The pattern is tried at each position from left to right. At a '<' it matches up to the
 * FIRST '>' after it (the `.*?` is non-greedy), provided no newline comes first (`.` does
 * not match a newline); the match is deleted and the scan resumes after it. A '<' with no
 * such '>' is kept and the scan resumes at the next character.
 */
module Markup {
  import opened Wrappers

  /** No '>' of `u` comes before its first newline. */
  predicate ClosesNoTag(u: string)
  {
    forall k :: 0 <= k < |u| && u[k] == '>' ==> '\n' in u[..k]
  }

  /** Where a tag opened just before `u` ends: the position of the first '>' of `u`, when no
      newline comes before it. */
  function TagEnd(u: string): (r: Option<nat>)
    ensures r.Some? ==> r.value < |u| && u[r.value] == '>'
    ensures r.Some? ==> forall k :: 0 <= k < r.value ==> u[k] != '>' && u[k] != '\n'
    ensures r.None? <==> ClosesNoTag(u)
  {
    if u == [] then None
    else if u[0] == '>' then Some(0)
    else if u[0] == '\n' then
      assert forall k :: 0 < k < |u| ==> u[0] in u[..k];
      None
    else
      match TagEnd(u[1..])
      case Some(k) => Some(k + 1)
      case None =>
        assert forall k :: 0 < k < |u| ==> u[..k] == [u[0]] + u[1..][..k - 1];
        None
  }

  /** `re.sub('<.*?>', '', s)` */
  function Strip(s: string): string
    decreases |s|
  {
    if s == [] then []
    else if s[0] == '<' then
      match TagEnd(s[1..])
      case Some(k) => Strip(s[k + 2..])
      case None => [s[0]] + Strip(s[1..])
    else [s[0]] + Strip(s[1..])
  }

  /** No '<' of `s` is followed by a '>' without a newline between them. */
  predicate NoTag(s: string)
  {
    forall i :: 0 <= i < |s| && s[i] == '<' ==> ClosesNoTag(s[i + 1..])
  }

  // ---------------------------------------------------------------------------------------
  // Helpers on the two predicates

  /** Dropping a first character that is not a newline keeps `ClosesNoTag`. */
  lemma ClosesNoTagTail(u: string)
    requires u != [] && u[0] != '\n' && ClosesNoTag(u)
    ensures ClosesNoTag(u[1..])
  {
    forall k | 0 <= k < |u[1..]| && u[1..][k] == '>'
      ensures '\n' in u[1..][..k]
    {
      assert u[k + 1] == '>';
      assert u[..k + 1] == [u[0]] + u[1..][..k];
    }
  }

  /** Putting a character other than '>' in front keeps `ClosesNoTag`. */
  lemma ClosesNoTagCons(c: char, v: string)
    requires c != '>' && ClosesNoTag(v)
    ensures ClosesNoTag([c] + v)
  {
    var u := [c] + v;
    forall k | 0 <= k < |u| && u[k] == '>'
      ensures '\n' in u[..k]
    {
      assert k > 0 && u[k] == v[k - 1];
      assert u[..k] == [c] + v[..k - 1];
    }
  }

  lemma NoTagTail(s: string)
    requires s != [] && NoTag(s)
    ensures NoTag(s[1..])
  {
    forall i | 0 <= i < |s[1..]| && s[1..][i] == '<'
      ensures ClosesNoTag(s[1..][i + 1..])
    {
      assert s[i + 1] == '<';
      assert s[1..][i + 1..] == s[i + 2..];
    }
  }

  /** Putting a character in front keeps `NoTag`, provided that a '<' put in front closes no tag. */
  lemma NoTagCons(c: char, v: string)
    requires NoTag(v) && (c == '<' ==> ClosesNoTag(v))
    ensures NoTag([c] + v)
  {
    var s := [c] + v;
    forall i | 0 <= i < |s| && s[i] == '<'
      ensures ClosesNoTag(s[i + 1..])
    {
      if i == 0 {
        assert s[1..] == v;
      } else {
        assert s[i] == v[i - 1];
        assert s[i + 1..] == v[i..];
      }
    }
  }

  // ---------------------------------------------------------------------------------------
  // Properties

  /** Stripping never puts a '>' before the first newline of a text that had none there:
      it only deletes tags, and a tag holds no newline. */
  lemma {:induction false} StripKeepsClosesNoTag(u: string)
    requires ClosesNoTag(u)
    ensures ClosesNoTag(Strip(u))
    decreases |u|
  {
    if u == [] {
    } else if u[0] == '\n' {
      var v := Strip(u[1..]);
      assert Strip(u) == ['\n'] + v;
      forall k | 0 <= k < |Strip(u)| && Strip(u)[k] == '>'
        ensures '\n' in Strip(u)[..k]
      {
        assert k > 0 && Strip(u)[..k][0] == '\n';
      }
    } else {
      assert u[0] != '>' by {
        assert u[..0] == [];
      }
      ClosesNoTagTail(u);
      StripKeepsClosesNoTag(u[1..]);
      ClosesNoTagCons(u[0], Strip(u[1..]));
    }
  }

  /** The result of stripping holds no tag. */
  lemma {:induction false} StripLeavesNoTag(s: string)
    ensures NoTag(Strip(s))
    decreases |s|
  {
    if s == [] {
    } else if s[0] == '<' {
      match TagEnd(s[1..])
      case Some(k) =>
        StripLeavesNoTag(s[k + 2..]);
      case None =>
        StripLeavesNoTag(s[1..]);
        StripKeepsClosesNoTag(s[1..]);
        NoTagCons(s[0], Strip(s[1..]));
    } else {
      StripLeavesNoTag(s[1..]);
      NoTagCons(s[0], Strip(s[1..]));
    }
  }

  /** A text without tags is left as it is. */
  lemma {:induction false} StripUntagged(s: string)
    requires NoTag(s)
    ensures Strip(s) == s
    decreases |s|
  {
    if s != [] {
      NoTagTail(s);
      StripUntagged(s[1..]);
      if s[0] == '<' {
        assert s[1..] == s[0 + 1..];
        assert TagEnd(s[1..]).None?;
      }
    }
  }

  /** Stripping is idempotent. */
  lemma StripIdempotent(s: string)
    ensures Strip(Strip(s)) == Strip(s)
  {
    StripLeavesNoTag(s);
    StripUntagged(Strip(s));
  }

  /** A removed tag holds no newline. */
  lemma TagHasNoNewline(s: string, k: nat)
    requires s != [] && s[0] == '<' && TagEnd(s[1..]) == Some(k)
    ensures k + 2 <= |s| && '\n' !in s[..k + 2]
  {
    forall m | 0 <= m < k + 2
      ensures s[m] != '\n'
    {
      if 0 < m < k + 1 {
        assert s[m] == s[1..][m - 1];
      }
    }
  }

  /** The newlines of a text are those of its two halves. */
  lemma NewlinesSplit(s: string, i: nat)
    requires i <= |s|
    ensures multiset(s)['\n'] == multiset(s[..i])['\n'] + multiset(s[i..])['\n']
  {
    assert s == s[..i] + s[i..];
  }

  /** Stripping deletes no newline: a tag never spans lines, so the lines are kept. */
  lemma {:induction false} StripKeepsNewlines(s: string)
    ensures multiset(Strip(s))['\n'] == multiset(s)['\n']
    decreases |s|
  {
    if s == [] {
    } else if s[0] == '<' && TagEnd(s[1..]).Some? {
      var k := TagEnd(s[1..]).value;
      assert Strip(s) == Strip(s[k + 2..]);
      StripKeepsNewlines(s[k + 2..]);
      TagHasNoNewline(s, k);
      NewlinesSplit(s, k + 2);
    } else {
      assert Strip(s) == [s[0]] + Strip(s[1..]);
      StripKeepsNewlines(s[1..]);
      NewlinesSplit(s, 1);
      assert s[..1] == [s[0]];
    }
  }

  /** `a` is `b` with some characters deleted: the characters of `a` occur in `b` in the same order. */
  predicate SubSeq(a: string, b: string)
    decreases |b|
  {
    a == [] || (b != [] && ((a[0] == b[0] && SubSeq(a[1..], b[1..])) || SubSeq(a, b[1..])))
  }

  /** A subsequence of a suffix of `b` is a subsequence of `b`. */
  lemma {:induction false} SubSeqOfSuffix(a: string, b: string, n: nat)
    requires n <= |b| && SubSeq(a, b[n..])
    ensures SubSeq(a, b)
    decreases n
  {
    if n > 0 {
      assert b[n - 1..][1..] == b[n..];
      SubSeqOfSuffix(a, b, n - 1);
    }
  }

  /** Stripping only deletes characters: the result is a subsequence of the text. */
  lemma {:induction false} StripShortens(s: string)
    ensures SubSeq(Strip(s), s)
    ensures |Strip(s)| <= |s|
    decreases |s|
  {
    if s != [] {
      if s[0] == '<' && TagEnd(s[1..]).Some? {
        var k := TagEnd(s[1..]).value;
        assert Strip(s) == Strip(s[k + 2..]);
        StripShortens(s[k + 2..]);
        SubSeqOfSuffix(Strip(s), s, k + 2);
      } else {
        var rest := Strip(s[1..]);
        assert Strip(s) == [s[0]] + rest;
        StripShortens(s[1..]);
        assert Strip(s)[0] == s[0] && Strip(s)[1..] == rest;
      }
    }
  }

  // ---------------------------------------------------------------------------------------
  // Examples

  lemma StripTagsExample()
    ensures Strip("<p>Hi</p>") == "Hi"
  {
    assert "<p>Hi</p>"[1..] == "p>Hi</p>";
    assert TagEnd("p>Hi</p>") == Some(1);
    assert "<p>Hi</p>"[3..] == "Hi</p>";
    assert "</p>"[1..] == "/p>";
    assert TagEnd("/p>") == Some(2) by {
      assert "/p>"[1..] == "p>";
      assert TagEnd("p>") == Some(1) by {
        assert "p>"[1..] == ">";
      }
    }
    assert Strip("</p>") == [];
    assert Strip("i</p>") == "i" by {
      assert "i</p>"[1..] == "</p>";
    }
    assert Strip("Hi</p>") == "Hi" by {
      assert "Hi</p>"[1..] == "i</p>";
    }
  }

  lemma StripPlainExample()
    ensures Strip("no tags") == "no tags"
  {
    StripUntagged("no tags");
  }

  /** A tag that spans two lines is not removed. */
  lemma StripMultilineExample()
    ensures Strip("<a\nb>") == "<a\nb>"
  {
    var s := "<a\nb>";
    assert NoTag(s) by {
      assert s[1..] == "a\nb>";
      assert s[1..][..3] == "a\nb";
    }
    StripUntagged(s);
  }
}
