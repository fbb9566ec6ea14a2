/** The order of strings that sorting uses: character by character, a prefix first. */
module TextOrder {
  predicate Less(s: string, t: string) {
    t != "" && (s == "" || s[0] < t[0] || (s[0] == t[0] && Less(s[1..], t[1..])))
  }

  /** One string is less than another if it is a proper beginning of it, or has the smaller character where they
  first differ. */
  lemma {:induction false} LessIff(s: string, t: string)
    ensures Less(s, t) <==>
      exists k :: 0 <= k <= |s| && k < |t| && s[..k] == t[..k] && (k < |s| ==> s[k] < t[k])
  {
    if Less(s, t) {
      var k := FirstDifference(s, t);
    }
    if k :| 0 <= k <= |s| && k < |t| && s[..k] == t[..k] && (k < |s| ==> s[k] < t[k]) {
      DifferenceDecides(s, t, k);
    }
  }

  lemma {:induction false} FirstDifference(s: string, t: string) returns (k: nat)
    requires Less(s, t)
    ensures k <= |s| && k < |t| && s[..k] == t[..k] && (k < |s| ==> s[k] < t[k])
  {
    if s == "" || s[0] < t[0] {
      k := 0;
    } else {
      var rest := FirstDifference(s[1..], t[1..]);
      k := rest + 1;
      assert s[..k] == [s[0]] + s[1..][..rest] && t[..k] == [t[0]] + t[1..][..rest];
    }
  }

  lemma {:induction false} DifferenceDecides(s: string, t: string, k: nat)
    requires k <= |s| && k < |t| && s[..k] == t[..k] && (k < |s| ==> s[k] < t[k])
    ensures Less(s, t)
  {
    if k > 0 {
      assert s[0] == s[..k][0] == t[..k][0] == t[0];
      assert s[1..][..k - 1] == s[..k][1..] && t[1..][..k - 1] == t[..k][1..];
      DifferenceDecides(s[1..], t[1..], k - 1);
    }
  }

  lemma {:induction false} Transitive(s: string, t: string, u: string)
    requires Less(s, t) && Less(t, u)
    ensures Less(s, u)
  {
    if s != "" && s[0] == t[0] == u[0] {
      Transitive(s[1..], t[1..], u[1..]);
    }
  }

  lemma {:induction false} Irreflexive(s: string)
    ensures !Less(s, s)
  {
    if s != "" {
      Irreflexive(s[1..]);
    }
  }

  lemma {:induction false} Total(s: string, t: string)
    ensures s == t || Less(s, t) || Less(t, s)
  {
    if s != "" && t != "" && s[0] == t[0] {
      Total(s[1..], t[1..]);
      assert s == [s[0]] + s[1..] && t == [t[0]] + t[1..];
    }
  }
}
