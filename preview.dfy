/** The one-line preview under each list entry: the note's content with every match
    of the pattern `<[^>]+>` removed (a global, left-to-right replace by the empty
    string), or a fixed fallback text when nothing is left. */
module Preview {

  /** Shown when the stripped content is empty. */
  const EmptyPreview: string := "Empty note..."

  /** `t` is one whole match of `<[^>]+>`: an opening `<`, at least one character
      other than `>`, and a closing `>`. */
  predicate IsTag(t: string) {
    && |t| >= 3
    && t[0] == '<'
    && t[|t| - 1] == '>'
    && forall m :: 1 <= m < |t| - 1 ==> t[m] != '>'
  }

  /** No substring of `t` is a match of `<[^>]+>`. */
  predicate NoTag(t: string) {
    forall i, j :: 0 <= i <= j <= |t| ==> !IsTag(t[i..j])
  }

  /** Position of the first `c` in `s`, or `|s|` when there is none. */
  function IndexOf(s: string, c: char): (k: nat)
    ensures k <= |s|
    ensures k < |s| ==> s[k] == c
    ensures forall m :: 0 <= m < k ==> s[m] != c
  {
    if s == [] || s[0] == c then 0 else 1 + IndexOf(s[1..], c)
  }

  /** Length of the match of `<[^>]+>` at the front of `s`, 0 when it does not match
      there. A prefix of `s` is a match exactly when it is `n` characters long, so the
      match is unique and the regex's greedy choice does not matter. */
  function TagLength(s: string): (n: nat)
    ensures n <= |s|
    ensures forall j :: 0 <= j <= |s| ==> (IsTag(s[..j]) <==> 0 < n && j == n)
  {
    if s == [] || s[0] != '<' then 0
    else
      var k := IndexOf(s[1..], '>');
      if 1 <= k < |s| - 1 then
        var tag := s[..k + 2];
        assert IsTag(tag) by {
          forall m | 1 <= m < k + 1 ensures tag[m] != '>' { assert tag[m] == s[1..][m - 1]; }
        }
        forall j | 0 <= j <= |s| && j != k + 2 ensures !IsTag(s[..j]) {
          if 2 <= j < k + 2 { assert s[..j][j - 1] == s[1..][j - 2]; }
          else if j > k + 2 { assert s[..j][k + 1] == s[1..][k]; }
        }
        k + 2
      else
        forall j | 0 <= j <= |s| ensures !IsTag(s[..j]) {
          if k == 0 && j >= 3 { assert s[..j][1] == s[1..][0]; }
          else if k > 0 && j >= 2 { assert s[..j][j - 1] == s[1..][j - 2]; }
        }
        0
  }

  /** `content.replace(/<[^>]+>/g, "")`: scan from the left; where a match starts,
      drop it and go on after it, otherwise keep the character and go on with the next. */
  function StripTags(s: string): (r: string)
    ensures |r| <= |s|
    ensures forall c :: c in r ==> c in s
    decreases |s|
  {
    if s == [] then []
    else
      var n := TagLength(s);
      if n > 0 then
        var r := StripTags(s[n..]);
        assert forall c :: c in r ==> c in s by {
          forall c | c in r ensures c in s {
            var m :| 0 <= m < |s[n..]| && s[n..][m] == c;
            assert s[n + m] == c;
          }
        }
        r
      else
        var r := [s[0]] + StripTags(s[1..]);
        assert forall c :: c in r ==> c in s by {
          forall c | c in r ensures c in s {
            if c != s[0] {
              var m :| 0 <= m < |s[1..]| && s[1..][m] == c;
              assert s[1 + m] == c;
            }
          }
        }
        r
  }

  /** The text shown as the preview. */
  function PreviewText(content: string): (p: string)
    ensures StripTags(content) == "" ==> p == EmptyPreview
    ensures StripTags(content) != "" ==> p == StripTags(content)
    ensures p != ""
  {
    var stripped := StripTags(content);
    if stripped == "" then EmptyPreview else stripped
  }

  /** The fallback is shown exactly when the stripped text is empty, or is itself the
      fallback text. */
  lemma PreviewIsFallback(content: string)
    ensures PreviewText(content) == EmptyPreview
            <==> StripTags(content) == "" || StripTags(content) == EmptyPreview
  {
  }

  /** Prepending a character that is not `<` adds no match. */
  lemma NoTagCons(c: char, t: string)
    requires c != '<' && NoTag(t)
    ensures NoTag([c] + t)
  {
    var s := [c] + t;
    forall i, j | 0 <= i <= j <= |s| ensures !IsTag(s[i..j]) {
      if i > 0 {
        assert s[i..j] == t[i - 1..j - 1];
      } else if j > 0 {
        assert s[i..j][0] == c;
      }
    }
  }

  /** A prefix of `<` followed by `t` is no match when `t` starts with `>` or holds
      no `>` at all. */
  lemma OpenPrefixNotTag(t: string, j: nat)
    requires (|t| > 0 && t[0] == '>') || '>' !in t
    requires j <= |t| + 1
    ensures !IsTag((['<'] + t)[..j])
  {
    var p := (['<'] + t)[..j];
    if |t| > 0 && t[0] == '>' {
      if j >= 3 { assert p[1] == t[0]; }
    } else if j >= 2 {
      assert p[j - 1] == t[j - 2];
      assert t[j - 2] in t;
    }
  }

  /** Prepending `<` to a text without matches adds none when the text starts with
      `>` or holds no `>` at all. */
  lemma NoTagConsOpen(t: string)
    requires NoTag(t)
    requires (|t| > 0 && t[0] == '>') || '>' !in t
    ensures NoTag(['<'] + t)
  {
    var s := ['<'] + t;
    forall i, j | 0 <= i <= j <= |s| ensures !IsTag(s[i..j]) {
      if i > 0 {
        assert s[i..j] == t[i - 1..j - 1];
      } else {
        assert s[i..j] == s[..j];
        OpenPrefixNotTag(t, j);
      }
    }
  }

  /** Removing the first character keeps a text free of matches. */
  lemma NoTagTail(t: string)
    requires NoTag(t) && t != []
    ensures NoTag(t[1..])
  {
    forall i, j | 0 <= i <= j <= |t| - 1 ensures !IsTag(t[1..][i..j]) {
      assert t[1..][i..j] == t[i + 1..j + 1];
    }
  }

  /** The preview text never holds a substring of the form `<`, one or more
      characters other than `>`, `>`. */
  lemma {:induction false} StripLeavesNoTag(s: string)
    ensures NoTag(StripTags(s))
    decreases |s|
  {
    if s != [] {
      var n := TagLength(s);
      if n > 0 {
        StripLeavesNoTag(s[n..]);
      } else {
        var rest := StripTags(s[1..]);
        StripLeavesNoTag(s[1..]);
        if s[0] != '<' {
          NoTagCons(s[0], rest);
        } else {
          var k := IndexOf(s[1..], '>');
          if k == 0 && |s| > 1 {
            // `<>`: the `>` is kept as the first character of the rest.
            assert TagLength(s[1..]) == 0;
            assert rest == [s[1]] + StripTags(s[2..]) by { assert s[1..][1..] == s[2..]; }
          } else {
            // no `>` after the `<`, so none in what is kept of the rest
            assert '>' !in s[1..];
          }
          NoTagConsOpen(rest);
        }
      }
    }
  }

  /** A text without matches is left as it is. */
  lemma {:induction false} StripNoTagUnchanged(t: string)
    requires NoTag(t)
    ensures StripTags(t) == t
    decreases |t|
  {
    if t != [] {
      assert !IsTag(t[0..TagLength(t)]);
      assert t[0..TagLength(t)] == t[..TagLength(t)];
      NoTagTail(t);
      StripNoTagUnchanged(t[1..]);
    }
  }

  /** The texts stripping leaves unchanged are exactly those without matches. */
  lemma StripFixedPoint(t: string)
    ensures StripTags(t) == t <==> NoTag(t)
  {
    StripLeavesNoTag(t);
    if NoTag(t) {
      StripNoTagUnchanged(t);
    }
  }

  /** Stripping twice is stripping once. */
  lemma StripIdempotent(s: string)
    ensures StripTags(StripTags(s)) == StripTags(s)
  {
    StripLeavesNoTag(s);
    StripNoTagUnchanged(StripTags(s));
  }

  /** Content without `<` is shown as it is. */
  lemma {:induction false} StripNoOpenUnchanged(s: string)
    requires '<' !in s
    ensures StripTags(s) == s
  {
    assert NoTag(s) by {
      forall i, j | 0 <= i <= j <= |s| ensures !IsTag(s[i..j]) {
        if i < j { assert s[i..j][0] == s[i]; }
      }
    }
    StripNoTagUnchanged(s);
  }

  // ---------------------------------------------------------------------------
  // What the scan keeps: text outside matches, in order.

  /** Text without `<` in front of anything is kept as it is, ahead of the stripped rest. */
  lemma {:induction false} StripPlainPrefix(a: string, b: string)
    requires '<' !in a
    ensures StripTags(a + b) == a + StripTags(b)
    decreases |a|
  {
    if a == [] {
      assert a + b == b;
    } else {
      var s := a + b;
      assert s[0] == a[0] && a[0] in a;
      assert s[1..] == a[1..] + b;
      assert '<' !in a[1..] by {
        forall m | 0 <= m < |a[1..]| ensures a[1..][m] != '<' { assert a[1..][m] in a; }
      }
      StripPlainPrefix(a[1..], b);
      assert a == [a[0]] + a[1..];
    }
  }

  /** A whole match at the front is dropped and the scan goes on after it. */
  lemma StripTagPrefix(t: string, b: string)
    requires IsTag(t)
    ensures StripTags(t + b) == StripTags(b)
  {
    var s := t + b;
    assert s[..|t|] == t;
    assert TagLength(s) == |t|;
    assert s[|t|..] == b;
  }

  /** A `<` that starts no match is kept, and the scan goes on with the next character. */
  lemma StripUnmatchedOpen(b: string)
    requires TagLength(['<'] + b) == 0
    ensures StripTags(['<'] + b) == ['<'] + StripTags(b)
  {
    assert (['<'] + b)[1..] == b;
  }

  /** Text around a match survives: `a` + match + `b` shows as `a` + stripped `b`. */
  lemma StripAroundTag(a: string, t: string, b: string)
    requires '<' !in a && IsTag(t)
    ensures StripTags(a + t + b) == a + StripTags(b)
  {
    assert a + t + b == a + (t + b);
    StripPlainPrefix(a, t + b);
    StripTagPrefix(t, b);
  }
}
