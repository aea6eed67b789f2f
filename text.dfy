/** Character classes and string helpers. Python's `\d`, `\w` and `str.isspace`
    are Unicode-aware; here they are approximated by their ASCII members. */
module Text {

  /** `\d` restricted to ASCII. */
  predicate IsDigit(c: char)
  {
    '0' <= c <= '9'
  }

  /** `\w` restricted to ASCII: letters, digits and the underscore. */
  predicate IsWordChar(c: char)
  {
    'a' <= c <= 'z' || 'A' <= c <= 'Z' || IsDigit(c) || c == '_'
  }

  /** ASCII whitespace as `str.strip()` removes it. */
  predicate IsSpace(c: char)
  {
    c == ' ' || c == '\t' || c == '\n' || c == '\r' || c == '\U{000B}' || c == '\U{000C}'
  }

  /** `not s.strip()`: the string is empty once surrounding whitespace is removed. */
  predicate IsBlank(s: string)
  {
    forall i :: 0 <= i < |s| ==> IsSpace(s[i])
  }

  /** `str.lower()` restricted to ASCII letters. */
  function LowerChar(c: char): char
  {
    if 'A' <= c <= 'Z' then (c as int + 32) as char else c
  }

  function Lower(s: string): (r: string)
    ensures |r| == |s|
    ensures forall i :: 0 <= i < |s| ==> r[i] == LowerChar(s[i])
  {
    seq(|s|, i requires 0 <= i < |s| => LowerChar(s[i]))
  }

  /** Python's `<` on strings: lexicographic comparison by code point, a proper
      prefix coming first. */
  predicate Below(a: string, b: string)
  {
    if |b| == 0 then false
    else if |a| == 0 then true
    else if a[0] != b[0] then a[0] < b[0]
    else Below(a[1..], b[1..])
  }

  lemma {:induction false} BelowIrreflexive(a: string)
    ensures !Below(a, a)
  {
    if |a| > 0 {
      BelowIrreflexive(a[1..]);
    }
  }

  lemma {:induction false} BelowTransitive(a: string, b: string, c: string)
    requires Below(a, b) && Below(b, c)
    ensures Below(a, c)
  {
    if |a| > 0 && a[0] == b[0] && b[0] == c[0] {
      BelowTransitive(a[1..], b[1..], c[1..]);
    }
  }

  lemma {:induction false} BelowTotal(a: string, b: string)
    requires a != b
    ensures Below(a, b) || Below(b, a)
  {
    if |a| > 0 && |b| > 0 && a[0] == b[0] {
      assert a == [a[0]] + a[1..] && b == [b[0]] + b[1..];
      BelowTotal(a[1..], b[1..]);
    }
  }

  /** Strictly increasing in code-point order: sorted, with no repeats. */
  predicate Crescente(s: seq<string>)
  {
    forall i, j :: 0 <= i < j < |s| ==> Below(s[i], s[j])
  }

  /** A string below every element of an increasing list can head it. */
  lemma CrescenteCons(h: string, t: seq<string>)
    requires Crescente(t) && forall y :: y in t ==> Below(h, y)
    ensures Crescente([h] + t)
  {
    var s := [h] + t;
    forall i, j | 0 <= i < j < |s| ensures Below(s[i], s[j]) {
      if i > 0 {
        assert s[i] == t[i - 1] && s[j] == t[j - 1];
      } else {
        assert s[j] in t;
      }
    }
  }

  /** `x` put in its place in an increasing list, unless it is already there. */
  function InserirOrdenado(x: string, s: seq<string>): seq<string>
  {
    if s == [] then [x]
    else if x == s[0] then s
    else if Below(x, s[0]) then [x] + s
    else [s[0]] + InserirOrdenado(x, s[1..])
  }

  lemma {:induction false} InserirOrdenadoCrescente(x: string, s: seq<string>)
    requires Crescente(s)
    ensures Crescente(InserirOrdenado(x, s))
    ensures forall y :: y in InserirOrdenado(x, s) <==> y == x || y in s
  {
    if s == [] {
    } else if x == s[0] {
    } else if Below(x, s[0]) {
      forall y | y in s ensures Below(x, y) {
        if y != s[0] {
          var j :| 0 < j < |s| && s[j] == y;
          BelowTransitive(x, s[0], y);
        }
      }
      CrescenteCons(x, s);
    } else {
      var t := s[1..];
      assert Crescente(t) by {
        forall i, j | 0 <= i < j < |t| ensures Below(t[i], t[j]) {
          assert t[i] == s[i + 1] && t[j] == s[j + 1];
        }
      }
      InserirOrdenadoCrescente(x, t);
      BelowTotal(x, s[0]);
      forall y | y in t ensures Below(s[0], y) {
        var j :| 0 <= j < |t| && t[j] == y;
        assert s[j + 1] == y;
      }
      CrescenteCons(s[0], InserirOrdenado(x, t));
      assert s == [s[0]] + t;
    }
  }

  /** `sorted(set(xs))`: the distinct strings of `xs` in increasing order. */
  function OrdenarSemRepeticao(xs: seq<string>): (r: seq<string>)
  {
    if xs == [] then [] else InserirOrdenado(xs[|xs| - 1], OrdenarSemRepeticao(xs[..|xs| - 1]))
  }

  lemma {:induction false} OrdenarSemRepeticaoCorreto(xs: seq<string>)
    ensures Crescente(OrdenarSemRepeticao(xs))
    ensures forall y :: y in OrdenarSemRepeticao(xs) <==> y in xs
  {
    if xs != [] {
      var init := xs[..|xs| - 1];
      OrdenarSemRepeticaoCorreto(init);
      InserirOrdenadoCrescente(xs[|xs| - 1], OrdenarSemRepeticao(init));
      assert xs == init + [xs[|xs| - 1]];
    }
  }
}
