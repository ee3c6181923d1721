/** The few string operations the models need, at the level of characters. */
module Text {
  /** The Unicode White_Space characters; Go's unicode.IsSpace and Rust's char::is_whitespace agree on them. */
  predicate IsSpace(c: char) {
    '\t' <= c <= '\r' || c == ' ' || c == '\U{85}' || c == '\U{A0}' || c == '\U{1680}'
    || '\U{2000}' <= c <= '\U{200A}' || c == '\U{2028}' || c == '\U{2029}' || c == '\U{202F}'
    || c == '\U{205F}' || c == '\U{3000}'
  }

  /** The string that trimming leaves empty. */
  predicate IsBlank(s: string) {
    forall c | c in s :: IsSpace(c)
  }

  predicate HasSuffix(s: string, suffix: string) {
    |suffix| <= |s| && s[|s| - |suffix|..] == suffix
  }

  predicate Contains(s: string, part: string) {
    part <= s || (s != "" && Contains(s[1..], part))
  }

  predicate IsDigit(c: char) {
    '0' <= c <= '9'
  }

  predicate AllDigits(s: string) {
    forall c | c in s :: IsDigit(c)
  }

  // ---------------------------------------------------------------- what these mean

  /** White_Space by code point. */
  lemma SpaceIff(c: char)
    ensures IsSpace(c) <==>
              c as int in {9, 10, 11, 12, 13, 32, 133, 160, 5760, 8192, 8193, 8194, 8195, 8196, 8197, 8198, 8199, 8200,
                           8201, 8202, 8232, 8233, 8239, 8287, 12288}
  {
    assert '\t' as int == 9 && '\r' as int == 13 && ' ' as int == 32;
    assert c == (c as int) as char;
  }

  lemma BlankIff(s: string)
    ensures IsBlank(s) <==> !exists i | 0 <= i < |s| :: !IsSpace(s[i])
  {
    forall i | 0 <= i < |s|
      ensures s[i] in s
    {
    }
  }

  lemma {:induction false} ContainsIff(s: string, part: string)
    ensures Contains(s, part) <==> exists before, after :: s == before + part + after
  {
    if part <= s {
      assert s == "" + part + s[|part|..];
    } else if s != "" {
      ContainsIff(s[1..], part);
      if Contains(s[1..], part) {
        var before, after :| s[1..] == before + part + after;
        assert s == ([s[0]] + before) + part + after;
      }
      if before, after :| s == before + part + after {
        assert before != "";
        assert s[1..] == before[1..] + part + after;
      }
    }
  }

  lemma DigitsIff(s: string)
    ensures AllDigits(s) <==> forall i | 0 <= i < |s| :: 48 <= s[i] as int <= 57
  {
    assert '0' as int == 48 && '9' as int == 57;
    forall i | 0 <= i < |s|
      ensures s[i] in s && s[i] == (s[i] as int) as char
    {
    }
  }
}
