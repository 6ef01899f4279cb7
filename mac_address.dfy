/**
 The MAC address syntax check: six groups of two hexadecimal digits, the
 groups separated by `:` or `-` (the two may be mixed), matched against the
 whole string, with lower- and upper-case hex digits both accepted.
 */
module MacAddress {
  import opened Model

  predicate IsHexDigit(ch: char)
  {
    ('0' <= ch <= '9') || ('a' <= ch <= 'f') || ('A' <= ch <= 'F')
  }

  predicate IsSeparator(ch: char)
  {
    ch == ':' || ch == '-'
  }

  /**
   Whether all of `s` matches `([0-9A-Fa-f]{2}[:-]){n}[0-9A-Fa-f]{2}`:
   `n` separator-terminated groups, then one last pair of digits.
   */
  predicate MatchesGroups(s: string, n: nat): (r: bool)
    ensures r ==> |s| == 3 * n + 2
  {
    if n == 0 then |s| == 2 && IsHexDigit(s[0]) && IsHexDigit(s[1])
    else |s| >= 3 && IsHexDigit(s[0]) && IsHexDigit(s[1]) && IsSeparator(s[2]) && MatchesGroups(s[3..], n - 1)
  }

  /** The validator's pattern `^([0-9A-Fa-f]{2}[:-]){5}[0-9A-Fa-f]{2}$`. */
  predicate MatchesMacAddressPattern(s: string): (r: bool)
    ensures r ==> |s| == 17
  {
    MatchesGroups(s, 5)
  }

  /** `validate`: rejects an absent (`null`) address and every address that does not match the pattern. */
  function Validate(macAddress: Option<string>): (r: Outcome)
    ensures r.Pass? <==> macAddress.Some? && MatchesMacAddressPattern(macAddress.value)
    ensures r.Fail? ==> r.failure == InvalidMacAddress
  {
    if macAddress.None? || !MatchesMacAddressPattern(macAddress.value) then Fail(InvalidMacAddress) else Pass
  }

  /** What position `i` of a MAC address must hold: a separator at every third place, a hex digit elsewhere. */
  predicate RightAt(s: string, i: nat)
    requires i < |s|
  {
    if i % 3 == 2 then IsSeparator(s[i]) else IsHexDigit(s[i])
  }

  /** A string of `3 * n + 2` characters matches the pattern with `n` groups exactly when every position is right. */
  lemma {:induction false} GroupsByPosition(s: string, n: nat)
    ensures MatchesGroups(s, n) <==> |s| == 3 * n + 2 && forall i :: 0 <= i < |s| ==> RightAt(s, i)
  {
    if n == 0 && |s| == 2 {
      forall i | 0 <= i < |s| ensures RightAt(s, i) <==> IsHexDigit(s[i]) {
        assert i == 0 || i == 1;
      }
    } else if n > 0 && |s| >= 3 {
      var t := s[3..];
      GroupsByPosition(t, n - 1);
      forall i | 3 <= i < |s| ensures RightAt(s, i) <==> RightAt(t, i - 3) {
        assert s[i] == t[i - 3];
        assert i % 3 == (i - 3) % 3;
      }
      if forall i :: 0 <= i < |s| ==> RightAt(s, i) {
        assert RightAt(s, 0) && RightAt(s, 1) && RightAt(s, 2);
        forall i | 0 <= i < |t| ensures RightAt(t, i) {
          assert RightAt(s, i + 3);
        }
      }
      if MatchesGroups(s, n) {
        forall i | 0 <= i < |s| ensures RightAt(s, i) {
          if i >= 3 { assert RightAt(t, i - 3); } else { assert i == 0 || i == 1 || i == 2; }
        }
      }
    }
  }

  /** A string the validator accepts, position by position. */
  predicate ShapedLikeMacAddress(s: string)
  {
    |s| == 17 && forall i :: 0 <= i < 17 ==> RightAt(s, i)
  }

  lemma PatternByPosition(s: string)
    ensures MatchesMacAddressPattern(s) <==> ShapedLikeMacAddress(s)
  {
    GroupsByPosition(s, 5);
  }

  /** `validate(null)` fails. */
  lemma NullRejected()
    ensures Validate(None) == Fail(InvalidMacAddress)
  {
  }

  /** An accepted address has exactly 17 characters, with a separator at positions 2, 5, 8, 11 and 14 and a hex digit everywhere else. */
  lemma AcceptedShape(s: string)
    requires Validate(Some(s)) == Pass
    ensures |s| == 17
    ensures IsSeparator(s[2]) && IsSeparator(s[5]) && IsSeparator(s[8]) && IsSeparator(s[11]) && IsSeparator(s[14])
    ensures forall i :: 0 <= i < 17 && i % 3 != 2 ==> IsHexDigit(s[i])
  {
    PatternByPosition(s);
    assert RightAt(s, 2) && RightAt(s, 5) && RightAt(s, 8) && RightAt(s, 11) && RightAt(s, 14);
    forall i | 0 <= i < 17 && i % 3 != 2 ensures IsHexDigit(s[i]) {
      assert RightAt(s, i);
    }
  }

  /** A string of the right shape is accepted, whichever separator stands at each place. */
  lemma ShapeAccepted(s: string)
    requires |s| == 17
    requires forall i :: 0 <= i < 17 && i % 3 == 2 ==> IsSeparator(s[i])
    requires forall i :: 0 <= i < 17 && i % 3 != 2 ==> IsHexDigit(s[i])
    ensures Validate(Some(s)) == Pass
  {
    forall i | 0 <= i < 17 ensures RightAt(s, i) {}
    PatternByPosition(s);
  }

  lemma MixedSeparatorsAccepted()
    ensures Validate(Some("0a:1B-2c:3D-4e-5F")) == Pass
  {
    var s := "0a:1B-2c:3D-4e-5F";
    ShapeAccepted(s);
  }

  /** ASCII upper-casing of one character. */
  function ToUpper(ch: char): char
  {
    if 'a' <= ch <= 'z' then (ch as int - 32) as char else ch
  }

  function UpperCase(s: string): (r: string)
    ensures |r| == |s| && forall i :: 0 <= i < |s| ==> r[i] == ToUpper(s[i])
  {
    seq(|s|, i requires 0 <= i < |s| => ToUpper(s[i]))
  }

  /** The letter case of the hex digits does not change the verdict. */
  lemma CaseInsensitive(s: string)
    ensures Validate(Some(UpperCase(s))) == Validate(Some(s))
  {
    var u := UpperCase(s);
    PatternByPosition(s);
    PatternByPosition(u);
    forall i | 0 <= i < |s| ensures RightAt(u, i) <==> RightAt(s, i) {
      assert u[i] == ToUpper(s[i]);
    }
  }
}
