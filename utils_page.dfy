/** The form validators shared by the registration and profile pages: phone
    cleaning, the phone length check and the e-mail pattern
    `^[\w\.-]+@[\w\.-]+\.\w+$`. */
module UtilsPage {
  import opened Text
  import opened Seqs
  import opened Wrappers

  // ----- phone -----

  /** `re.sub(r'\D', '', telefone)`: the digits of the input, in their order. */
  function LimparTelefone(telefone: string): (r: string)
    ensures forall i :: 0 <= i < |r| ==> IsDigit(r[i])
    ensures |r| <= |telefone|
  {
    Filter(telefone, IsDigit)
  }

  /** Cleaning works character by character: it keeps a digit, drops anything else
      and distributes over concatenation, so every digit survives in its place. */
  lemma LimparTelefoneKeepsDigits(a: string, b: string, c: char)
    ensures LimparTelefone(a + b) == LimparTelefone(a) + LimparTelefone(b)
    ensures LimparTelefone([c]) == if IsDigit(c) then [c] else []
  {
    FilterAppend(a, b, IsDigit);
    assert [c][1..] == [];
  }

  /** Cleaning an already clean phone changes nothing. */
  lemma LimparTelefoneIdempotent(telefone: string)
    ensures LimparTelefone(LimparTelefone(telefone)) == LimparTelefone(telefone)
  {
    FilterIdempotent(telefone, IsDigit);
  }

  /** A phone made of digits only is its own cleaning. */
  lemma LimparTelefoneOfDigits(telefone: string)
    requires forall i :: 0 <= i < |telefone| ==> IsDigit(telefone[i])
    ensures LimparTelefone(telefone) == telefone
  {
    FilterKeepsAll(telefone, IsDigit);
  }

  /** The number of digits in `s`, counted from its last character backwards. */
  function DigitCount(s: string): nat
  {
    if s == [] then 0 else DigitCount(s[..|s| - 1]) + (if IsDigit(s[|s| - 1]) then 1 else 0)
  }

  /** The cleaned phone has exactly as many characters as the input has digits. */
  lemma {:induction false} LimparTelefoneLength(telefone: string)
    ensures |LimparTelefone(telefone)| == DigitCount(telefone)
  {
    if telefone != [] {
      var init := telefone[..|telefone| - 1];
      var last := telefone[|telefone| - 1];
      assert telefone == init + [last];
      LimparTelefoneKeepsDigits(init, [last], last);
      LimparTelefoneLength(init);
    }
  }

  /** `len(telefone) >= 8`. */
  predicate ValidarTelefone(telefone: string)
  {
    |telefone| >= 8
  }

  /** A phone entered on a form is accepted after cleaning iff it holds at least
      eight digits, whatever else it contains. */
  lemma TelefoneAceito(telefone: string)
    ensures ValidarTelefone(LimparTelefone(telefone)) <==> DigitCount(telefone) >= 8
  {
    LimparTelefoneLength(telefone);
  }

  // ----- e-mail -----

  /** The class `[\w\.-]`. */
  predicate EmailChar(c: char)
  {
    IsWordChar(c) || c == '.' || c == '-'
  }

  predicate AllEmailChars(s: string)
  {
    forall i :: 0 <= i < |s| ==> EmailChar(s[i])
  }

  predicate AllWordChars(s: string)
  {
    forall i :: 0 <= i < |s| ==> IsWordChar(s[i])
  }

  /** The regular expression read as a definition: a non-empty local part, '@', a
      non-empty domain part, then '.' and a non-empty run of word characters to
      the end. */
  ghost predicate EmailPattern(s: string)
  {
    exists at: nat, dot: nat ::
      0 < at && at + 1 < dot < |s| - 1 && s[at] == '@' && s[dot] == '.'
      && AllEmailChars(s[..at]) && AllEmailChars(s[at + 1..dot]) && AllWordChars(s[dot + 1..])
  }

  /** The first position holding `c`, if any. */
  function IndexOf(s: string, c: char): (r: Option<nat>)
    ensures r.Some? ==> r.value < |s| && s[r.value] == c && forall k :: 0 <= k < r.value ==> s[k] != c
    ensures r.None? ==> forall k :: 0 <= k < |s| ==> s[k] != c
  {
    if s == [] then None
    else if s[0] == c then Some(0)
    else match IndexOf(s[1..], c)
      case None => None
      case Some(k) => Some(k + 1)
  }

  /** The last position holding `c`, if any. */
  function LastIndexOf(s: string, c: char): (r: Option<nat>)
    ensures r.Some? ==> r.value < |s| && s[r.value] == c && forall k :: r.value < k < |s| ==> s[k] != c
    ensures r.None? ==> forall k :: 0 <= k < |s| ==> s[k] != c
  {
    if s == [] then None
    else if s[|s| - 1] == c then Some(|s| - 1)
    else LastIndexOf(s[..|s| - 1], c)
  }

  /** `re.match(padrao_email, email) is not None`, computed by splitting at the
      first '@' and at the last '.'. */
  function ValidarEmail(email: string): (ok: bool)
  {
    match IndexOf(email, '@')
    case None => false
    case Some(at) =>
      var domain := email[at + 1..];
      0 < at && AllEmailChars(email[..at]) && AllEmailChars(domain) &&
      match LastIndexOf(domain, '.')
      case None => false
      case Some(dot) => 0 < dot < |domain| - 1 && AllWordChars(domain[dot + 1..])
  }

  /** Every string the split computation accepts fits the pattern. */
  lemma ValidarEmailSound(email: string)
    requires ValidarEmail(email)
    ensures EmailPattern(email)
  {
    var at := IndexOf(email, '@').value;
    var domain := email[at + 1..];
    var dot := LastIndexOf(domain, '.').value;
    var d := at + 1 + dot;
    assert email[at + 1..d] == domain[..dot];
    assert email[d + 1..] == domain[dot + 1..];
    assert email[d] == domain[dot];
  }

  /** The first '@' of a string fitting the pattern is the one the pattern names. */
  lemma PatternAt(email: string, at: nat)
    requires at < |email| && email[at] == '@' && AllEmailChars(email[..at])
    ensures IndexOf(email, '@') == Some(at)
  {
    forall k | 0 <= k < at ensures email[k] != '@' {
      assert EmailChar(email[..at][k]);
    }
  }

  /** The '.' the pattern names is the last one of the domain. */
  lemma PatternDot(domain: string, dot: nat)
    requires dot < |domain| && domain[dot] == '.' && AllWordChars(domain[dot + 1..])
    ensures LastIndexOf(domain, '.') == Some(dot)
  {
    forall k | dot < k < |domain| ensures domain[k] != '.' {
      assert IsWordChar(domain[dot + 1..][k - dot - 1]);
    }
  }

  /** The local part and the dotted suffix of a pattern's domain, glued together,
      are all e-mail characters. */
  lemma DomainChars(email: string, at: nat, d: nat)
    requires at + 1 < d < |email| && email[d] == '.'
    requires AllEmailChars(email[at + 1..d]) && AllWordChars(email[d + 1..])
    ensures AllEmailChars(email[at + 1..])
  {
    var domain := email[at + 1..];
    var dot := d - (at + 1);
    forall k | 0 <= k < |domain| ensures EmailChar(domain[k]) {
      if k < dot {
        assert domain[k] == email[at + 1..d][k];
      } else if k > dot {
        assert domain[k] == email[d + 1..][k - dot - 1];
      }
    }
  }

  /** The split computation accepts once its two cuts are known. */
  lemma AcceptedAt(email: string, at: nat, dot: nat)
    requires at < |email| && IndexOf(email, '@') == Some(at)
    requires 0 < at && AllEmailChars(email[..at]) && AllEmailChars(email[at + 1..])
    requires LastIndexOf(email[at + 1..], '.') == Some(dot)
    requires 0 < dot < |email[at + 1..]| - 1 && AllWordChars(email[at + 1..][dot + 1..])
    ensures ValidarEmail(email)
  {
  }

  /** The '.' the pattern names, seen from the domain. */
  lemma DotOfDomain(email: string, at: nat, d: nat)
    requires at + 1 < d < |email| && email[d] == '.' && AllWordChars(email[d + 1..])
    ensures LastIndexOf(email[at + 1..], '.') == Some(d - (at + 1))
    ensures AllWordChars(email[at + 1..][d - (at + 1) + 1..])
  {
    var domain := email[at + 1..];
    var dot := d - (at + 1);
    assert domain[dot + 1..] == email[d + 1..];
    PatternDot(domain, dot);
  }

  /** A string fitting the pattern at `at` and `d` is accepted. */
  lemma AcceptedByPattern(email: string, at: nat, d: nat)
    requires 0 < at && at + 1 < d < |email| - 1 && email[at] == '@' && email[d] == '.'
    requires AllEmailChars(email[..at]) && AllEmailChars(email[at + 1..d]) && AllWordChars(email[d + 1..])
    ensures ValidarEmail(email)
  {
    PatternAt(email, at);
    DomainChars(email, at, d);
    DotOfDomain(email, at, d);
    AcceptedAt(email, at, d - (at + 1));
  }

  /** Every string fitting the pattern is accepted by the split computation. */
  lemma ValidarEmailComplete(email: string)
    requires EmailPattern(email)
    ensures ValidarEmail(email)
  {
    var at: nat, d: nat :| 0 < at && at + 1 < d < |email| - 1 && email[at] == '@' && email[d] == '.'
      && AllEmailChars(email[..at]) && AllEmailChars(email[at + 1..d]) && AllWordChars(email[d + 1..]);
    AcceptedByPattern(email, at, d);
  }

  /** The split computation accepts exactly the strings the pattern describes. */
  lemma ValidarEmailMatchesPattern(email: string)
    ensures ValidarEmail(email) <==> EmailPattern(email)
  {
    if ValidarEmail(email) {
      ValidarEmailSound(email);
    }
    if EmailPattern(email) {
      ValidarEmailComplete(email);
    }
  }

  /** An accepted e-mail has exactly one '@', preceded by a non-empty local part of
      word characters, '.' and '-'. */
  lemma EmailAceitoTemUmaArroba(email: string)
    requires ValidarEmail(email)
    ensures exists at :: 0 < at < |email| && email[at] == '@' && AllEmailChars(email[..at])
                         && forall k :: 0 <= k < |email| && email[k] == '@' ==> k == at
  {
    var at := IndexOf(email, '@').value;
    var domain := email[at + 1..];
    assert AllEmailChars(domain);
  }

  /** An accepted e-mail contains no whitespace and ends in '.' followed by at
      least one word character. */
  lemma EmailAceitoSemEspacos(email: string)
    requires ValidarEmail(email)
    ensures forall k :: 0 <= k < |email| ==> !IsSpace(email[k])
    ensures exists dot :: 0 < dot < |email| - 1 && email[dot] == '.' && AllWordChars(email[dot + 1..])
  {
    var at := IndexOf(email, '@').value;
    var domain := email[at + 1..];
    var dot := LastIndexOf(domain, '.').value;
    forall k | 0 <= k < |email| ensures !IsSpace(email[k]) {
      if k < at {
        assert EmailChar(email[..at][k]);
      } else if k > at {
        assert EmailChar(domain[k - at - 1]);
      }
    }
    assert email[at + 1 + dot + 1..] == domain[dot + 1..];
  }
}
