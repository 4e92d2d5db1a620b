/** The contact form: the e-mail pattern, the message rule, and the two
    validation passes (live while typing, and on submit) that gate the
    submission request. */
module Contact {
  import opened Wrappers
  import opened Text

  /** The regular-expression class `[^\s@]`. */
  predicate IsWordChar(c: char) {
    !IsSpace(c) && c != '@'
  }

  predicate AllWord(s: string) {
    forall i :: 0 <= i < |s| ==> IsWordChar(s[i])
  }

  /** `v` matches `^[^\s@]+@[^\s@]+\.[^\s@]+$` with the `@` at index `at`
      and the separating dot at index `dot`: at least one character before
      the `@`, between the `@` and the dot, and after the dot, and every
      character but the `@` drawn from `[^\s@]`. */
  ghost predicate MatchesAt(v: string, at: int, dot: int) {
    && 0 < at && at + 1 < dot && dot + 1 < |v|
    && v[at] == '@' && v[dot] == '.'
    && forall k :: 0 <= k < |v| && k != at ==> IsWordChar(v[k])
  }

  /** The language of the e-mail regular expression. */
  ghost predicate EmailPattern(v: string) {
    exists at, dot :: MatchesAt(v, at, dot)
  }

  /** The index of the first `c` in `s`, if any. */
  function IndexOf(s: string, c: char): (r: Option<nat>)
    ensures r.None? <==> c !in s
    ensures r.Some? ==> r.value < |s| && s[r.value] == c && c !in s[..r.value]
  {
    if s == [] then None
    else if s[0] == c then Some(0)
    else match IndexOf(s[1..], c)
      case None => None
      case Some(i) =>
        assert s[..i + 1] == [s[0]] + s[1..][..i];
        Some(i + 1)
  }

  /** A dot somewhere other than the first or the last character. */
  predicate HasInnerDot(d: string) {
    exists k :: 1 <= k < |d| - 1 && d[k] == '.'
  }

  /** `validateEmail`: one `@`, a non-empty part before it, no white space
      anywhere, and a dot inside the part after it. An accepted address has
      exactly one `@`. */
  function ValidateEmail(v: string): (ok: bool)
    ensures ok ==> multiset(v)['@'] == 1
    ensures ok ==> forall k :: 0 <= k < |v| ==> !IsSpace(v[k])
  {
    match IndexOf(v, '@')
    case None => false
    case Some(at) =>
      var local, domain := v[..at], v[at + 1..];
      if 0 < at && AllWord(local) && AllWord(domain) && HasInnerDot(domain) then
        assert v == local + [v[at]] + domain;
        assert '@' !in local && '@' !in domain by {
          assert forall i :: 0 <= i < |local| ==> local[i] != '@';
          assert forall i :: 0 <= i < |domain| ==> domain[i] != '@';
        }
        assert forall k :: 0 <= k < |v| ==> !IsSpace(v[k]) by {
          forall k | 0 <= k < |v|
            ensures !IsSpace(v[k])
          {
            if k < at {
              assert v[k] == local[k];
            } else if k > at {
              assert v[k] == domain[k - at - 1];
            }
          }
        }
        true
      else false
  }

  /** `ValidateEmail` accepts exactly the language of the regular expression. */
  lemma ValidateEmailIsPattern(v: string)
    ensures ValidateEmail(v) <==> EmailPattern(v)
  {
    if ValidateEmail(v) {
      var at := IndexOf(v, '@').value;
      var domain := v[at + 1..];
      var k :| 1 <= k < |domain| - 1 && domain[k] == '.';
      var dot := at + 1 + k;
      forall j | 0 <= j < |v| && j != at
        ensures IsWordChar(v[j])
      {
        if j < at {
          assert v[j] == v[..at][j];
        } else {
          assert v[j] == domain[j - at - 1];
        }
      }
      assert MatchesAt(v, at, dot);
    }
    if EmailPattern(v) {
      var at, dot :| MatchesAt(v, at, dot);
      assert '@' in v by {
        assert v[at] == '@';
      }
      var first := IndexOf(v, '@').value;
      assert first == at;
      var local, domain := v[..at], v[at + 1..];
      assert AllWord(local) by {
        forall j | 0 <= j < |local|
          ensures IsWordChar(local[j])
        {
          assert local[j] == v[j];
        }
      }
      assert AllWord(domain) by {
        forall j | 0 <= j < |domain|
          ensures IsWordChar(domain[j])
        {
          assert domain[j] == v[at + 1 + j];
        }
      }
      assert domain[dot - at - 1] == '.';
      assert HasInnerDot(domain);
    }
  }

  /** Two different positions holding `@` make at least two `@`s. */
  lemma TwoAts(v: string, i: nat, j: nat)
    requires i < j < |v| && v[i] == '@' && v[j] == '@'
    ensures multiset(v)['@'] >= 2
  {
    assert v == v[..j] + v[j..];
    assert v[..j][i] == '@';
    assert v[j..][0] == '@';
    assert multiset(v)['@'] == multiset(v[..j])['@'] + multiset(v[j..])['@'];
  }

  /** `validateEmail` in words: no white space, exactly one `@`, something
      before it, and a dot after it that is neither the first nor the last
      character of the part after the `@`. */
  lemma ValidateEmailCharacterized(v: string)
    ensures ValidateEmail(v) <==>
      && (forall k :: 0 <= k < |v| ==> !IsSpace(v[k]))
      && multiset(v)['@'] == 1
      && exists at :: 0 < at < |v| && v[at] == '@' && HasInnerDot(v[at + 1..])
  {
    if ValidateEmail(v) {
      var at := IndexOf(v, '@').value;
      assert 0 < at < |v| && v[at] == '@' && HasInnerDot(v[at + 1..]);
    }
    if && (forall k :: 0 <= k < |v| ==> !IsSpace(v[k]))
       && multiset(v)['@'] == 1
       && exists at :: 0 < at < |v| && v[at] == '@' && HasInnerDot(v[at + 1..])
    {
      var at :| 0 < at < |v| && v[at] == '@' && HasInnerDot(v[at + 1..]);
      forall k | 0 <= k < |v| && k != at
        ensures v[k] != '@'
      {
        if v[k] == '@' {
          if k < at { TwoAts(v, k, at); } else { TwoAts(v, at, k); }
        }
      }
      assert '@' in v;
      var first := IndexOf(v, '@').value;
      assert first == at;
      var local, domain := v[..at], v[at + 1..];
      assert AllWord(local) by {
        forall j | 0 <= j < |local|
          ensures IsWordChar(local[j])
        {
          assert local[j] == v[j];
        }
      }
      assert AllWord(domain) by {
        forall j | 0 <= j < |domain|
          ensures IsWordChar(domain[j])
        {
          assert domain[j] == v[at + 1 + j];
        }
      }
    }
  }

  /** Examples: an ordinary address passes. */
  lemma AcceptedExample()
    ensures ValidateEmail("a@b.co")
  {
    assert IndexOf("a@b.co", '@') == Some(1);
    assert "a@b.co"[2..][1] == '.';
  }

  /** Examples: an address without a dot after the `@`, or without an
      `@`, is refused. */
  lemma MissingPartExamples()
    ensures !ValidateEmail("a@b") && !ValidateEmail("ab.co")
  {
  }

  /** Examples: a second `@`, or a space inside, is refused. */
  lemma ForbiddenCharExamples()
    ensures !ValidateEmail("a@b@c.d") && !ValidateEmail("a b@c.d")
  {
  }

  const MinMessageLength := 5

  /** The message rule: at least five characters once trimmed. Put
      differently: the message is white space, then a stretch of at least
      five characters that neither begins nor ends with white space, then
      white space. */
  predicate ValidMessage(raw: string): (ok: bool)
    ensures ok <==> exists k: nat, m :: Surrounds(raw, k, m) && IsTrimmed(m) && |m| >= MinMessageLength
  {
    TrimUniqueAll(raw);
    |Trim(raw)| >= MinMessageLength
  }

  /** The error a field shows: the "required" prompt, a malformed address,
      or a message that is too short. */
  datatype FieldError = Required | BadEmail | TooShort

  /** Live validation of the e-mail field (on input, debounced): a blank
      field is never flagged; anything else is flagged exactly when the
      trimmed text is not an address. */
  function LiveEmailError(raw: string): (err: Option<FieldError>)
    ensures AllSpace(raw) ==> err == None
    ensures !AllSpace(raw) ==> (err == Some(BadEmail) <==> !ValidateEmail(Trim(raw)))
    ensures err == None || err == Some(BadEmail)
  {
    var e := Trim(raw);
    if e != [] && !ValidateEmail(e) then Some(BadEmail) else None
  }

  /** Live validation of the message field: flagged only when some but
      fewer than five characters remain after trimming. */
  function LiveMessageError(raw: string): (err: Option<FieldError>)
    ensures AllSpace(raw) ==> err == None
    ensures err.Some? <==> !AllSpace(raw) && !ValidMessage(raw)
    ensures err == None || err == Some(TooShort)
  {
    var m := Trim(raw);
    if |m| > 0 && |m| < MinMessageLength then Some(TooShort) else None
  }

  /** Submit-time validation of the e-mail field: blank is "required",
      otherwise the address must be well formed. */
  function SubmitEmailError(raw: string): (err: Option<FieldError>)
    ensures AllSpace(raw) ==> err == Some(Required)
    ensures err == None <==> ValidateEmail(Trim(raw))
    ensures !AllSpace(raw) && !ValidateEmail(Trim(raw)) ==> err == Some(BadEmail)
  {
    var e := Trim(raw);
    if e == [] then Some(Required)
    else if !ValidateEmail(e) then Some(BadEmail)
    else None
  }

  /** Submit-time validation of the message field: blank is "required",
      otherwise it must have five characters once trimmed. */
  function SubmitMessageError(raw: string): (err: Option<FieldError>)
    ensures AllSpace(raw) ==> err == Some(Required)
    ensures err == None <==> ValidMessage(raw)
    ensures !AllSpace(raw) && !ValidMessage(raw) ==> err == Some(TooShort)
  {
    var m := Trim(raw);
    if m == [] then Some(Required)
    else if |m| < MinMessageLength then Some(TooShort)
    else None
  }

  /** Live and submit validation agree on every field that is not blank;
      they differ only in that submit calls a blank field required. */
  lemma LiveAgreesWithSubmit(email: string, message: string)
    ensures !AllSpace(email) ==> LiveEmailError(email) == SubmitEmailError(email)
    ensures !AllSpace(message) ==> LiveMessageError(message) == SubmitMessageError(message)
    ensures AllSpace(email) ==> LiveEmailError(email) == None && SubmitEmailError(email) == Some(Required)
  {
  }

  /** The body of the submission request (the creation time it also
      carries is a clock reading and is not modelled). */
  datatype Submission = Submission(email: string, message: string)

  /** The submit handler's gate: both fields are validated, and the request
      is built, from the trimmed values, only when neither shows an error. */
  function SubmitGate(rawEmail: string, rawMessage: string): (r: Option<Submission>)
    ensures r.Some? <==> ValidateEmail(Trim(rawEmail)) && ValidMessage(rawMessage)
    ensures r.Some? ==> r.value == Submission(Trim(rawEmail), Trim(rawMessage))
    ensures r.Some? ==> EmailPattern(r.value.email) && |r.value.message| >= MinMessageLength
  {
    var e, m := SubmitEmailError(rawEmail), SubmitMessageError(rawMessage);
    if e.None? && m.None? then
      ValidateEmailIsPattern(Trim(rawEmail));
      Some(Submission(Trim(rawEmail), Trim(rawMessage)))
    else None
  }

  /** Examples of the message rule: four characters are too few, five are
      enough, and surrounding white space does not count. */
  lemma MessageExamples()
    ensures !ValidMessage("abcd") && ValidMessage("abcde") && !ValidMessage("  abcd  ")
  {
    TrimmedIsFixed("abcd");
    TrimmedIsFixed("abcde");
  }
}
