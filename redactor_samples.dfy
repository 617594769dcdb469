/** A worked example of `redact_sensitive_data`: a lone twelve-digit run is
    an Aadhaar number, and nothing else fires after its placeholder. */
module RedactorSamples {
  import opened Wrappers
  import opened Patterns
  import opened Scan
  import opened Alerts
  import opened Redactor

  /** No rule matches inside a placeholder. */
  lemma TokenMatchesNothing(p: Pattern)
    requires IsRule(p)
    ensures forall r :: 0 <= r < |Rules| ==> NoMatch(Rules[r], Token(p))
  {
    TokenShape(p);
    forall r | 0 <= r < |Rules|
      ensures NoMatch(Rules[r], Token(p))
    {
      NoWitnessNoMatch(Rules[r], Token(p));
    }
  }

  lemma LoneAadhaarFirstRule(t: string)
    requires t == "123456789012"
    ensures Staged(1, t) == ("[REDACTED_AADHAAR]", [AlertFor(Aadhaar)])
  {
    assert MatchAt(Aadhaar, "123456789012", 0) == Some(12);
    WholeMatch(Aadhaar, t);
    assert Matches(Aadhaar, t);
    assert Rules[0] == Aadhaar;
    assert Staged(1, t) == Run(Aadhaar, t, []);
    assert [] + [AlertFor(Aadhaar)] == [AlertFor(Aadhaar)];
  }

  lemma LoneAadhaar(t: string)
    requires t == "123456789012"
    ensures Redact(t) == ("[REDACTED_AADHAAR]", [AlertFor(Aadhaar)])
  {
    LoneAadhaarFirstRule(t);
    TokenMatchesNothing(Aadhaar);
    QuietFrom(1, |Rules|, t);
    RedactIsStaged(t);
  }

  /** A lone twelve-digit run becomes the Aadhaar placeholder with the Aadhaar
      alert only: neither the phone rule nor the postal-code rule fires. */
  lemma LoneAadhaarRedacted()
    ensures Redact("123456789012") == ("[REDACTED_AADHAAR]", [AlertFor(Aadhaar)])
    ensures AlertFor(Phone) !in Redact("123456789012").1 && AlertFor(Pincode) !in Redact("123456789012").1
  {
    LoneAadhaar("123456789012");
    AlertIndex(0);
    AlertIndex(4);
    AlertIndex(6);
  }
}
