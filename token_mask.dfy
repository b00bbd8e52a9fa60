/** `maskToken` of the `ai status` command: the stored API token, shown with
    its middle hidden. */
module TokenMask {
  import opened Text

  const Hidden: string := "********"

  /** maskToken: a trimmed token of at most 8 characters is shown as eight
      stars; a longer one keeps its first and last four characters. */
  function MaskToken(token: string): (r: string)
    ensures |TrimSpace(token)| <= 8 ==> r == Hidden
  {
    var s := TrimSpace(token);
    if |s| <= 8 then Hidden else s[..4] + Repeat("*", |s| - 8) + s[|s| - 4..]
  }

  /** A long token keeps its length, its first and last four characters, and
      nothing of its middle. */
  lemma MaskLong(token: string)
    requires |TrimSpace(token)| > 8
    ensures var s := TrimSpace(token);
            var r := MaskToken(token);
            |r| == |s|
            && r[..4] == s[..4] && r[|r| - 4..] == s[|s| - 4..]
            && forall i :: 4 <= i < |r| - 4 ==> r[i] == '*'
  {
    var s := TrimSpace(token);
    var stars := Repeat("*", |s| - 8);
    RepeatChar('*', |s| - 8);
    var r := MaskToken(token);
    var head, tail := s[..4], s[|s| - 4..];
    assert r == head + stars + tail;
    assert |r| == |s|;
    assert r[..4] == head;
    assert r[|r| - 4..] == tail;
    forall i | 4 <= i < |r| - 4 ensures r[i] == '*' {
      assert r[i] == stars[i - 4];
    }
  }

  /** The mask never depends on white space around the token. */
  lemma MaskIgnoresPadding(token: string)
    ensures MaskToken(token) == MaskToken(TrimSpace(token))
  {
    TrimSpaceIdempotent(token);
  }
}
