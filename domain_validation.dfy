/** Domain validation (src/operations/domain_validation.py): the custom
    allowed and blocked lists, the decision `is_valid_domain` makes, and the
    e-mail check built on it. The public suffix set and the stored custom
    lists are given to the constructor. */
module DomainValidation {
  import opened PyStr
  import opened Cells
  import opened ValidateInputs

  // ---------------------------------------------------------- the format

  /** `[a-z0-9]` */
  predicate LabelChar(c: char) { 'a' <= c <= 'z' || IsAsciiDigit(c) }

  /** `[a-z0-9]([a-z0-9-]*[a-z0-9])?`: letters and digits, with hyphens
      inside only. */
  predicate Label(s: string)
  {
    |s| > 0 && LabelChar(s[0]) && LabelChar(s[|s| - 1])
    && forall k :: 0 <= k < |s| ==> LabelChar(s[k]) || s[k] == '-'
  }

  /** `label(\.label)*`: every dot-separated piece is a label. */
  predicate HostBody(s: string)
  {
    var ps := SplitOn(s, ".");
    forall k :: 0 <= k < |ps| ==> Label(ps[k])
  }

  // --------------------------------------------------- the type patterns

  /** A pattern `\.xyz$` (`tail` = ".xyz"), or `\.xyz\.[a-z]{2}$`
      (`tail` = ".xyz.", `twoLetters`). */
  datatype EndPattern = EndPattern(tail: string, twoLetters: bool)

  predicate EndsWithBody(p: EndPattern, s: string)
  {
    if p.twoLetters then
      |s| >= |p.tail| + 2 && s[|s| - |p.tail| - 2..|s| - 2] == p.tail
      && 'a' <= s[|s| - 2] <= 'z' && 'a' <= s[|s| - 1] <= 'z'
    else |s| >= |p.tail| && s[|s| - |p.tail|..] == p.tail
  }

  /** `re.search(pattern, s)`: `$` matches at the end or before a final
      newline. */
  predicate SearchAtEnd(p: EndPattern, s: string)
  {
    EndsWithBody(p, s) || (|s| > 0 && s[|s| - 1] == '\n' && EndsWithBody(p, s[..|s| - 1]))
  }

  /** The `domain_patterns` table, in its order. */
  const DomainPatterns: seq<(EndPattern, string)> := [
    (EndPattern(".edu", false), "Educational Institution"),
    (EndPattern(".edu.", true), "International Educational Institution"),
    (EndPattern(".ac.", true), "Academic Institution"),
    (EndPattern(".gov", false), "Government Institution"),
    (EndPattern(".gov.", true), "International Government Institution"),
    (EndPattern(".mil", false), "Military Institution"),
    (EndPattern(".org", false), "Organization"),
    (EndPattern(".com", false), "Commercial"),
    (EndPattern(".net", false), "Network")
  ]

  /** The loop over the patterns: the type of the first that matches. */
  function FirstType(pats: seq<(EndPattern, string)>, d: string): Option<string>
  {
    if pats == [] then None
    else if SearchAtEnd(pats[0].0, d) then Some(pats[0].1)
    else FirstType(pats[1..], d)
  }

  /** `None` iff no pattern matches; otherwise the type of a matching
      pattern none of whose predecessors matches. */
  lemma {:induction false} FirstTypeSpec(pats: seq<(EndPattern, string)>, d: string) returns (k: nat)
    ensures FirstType(pats, d).None? <==> forall m :: 0 <= m < |pats| ==> !SearchAtEnd(pats[m].0, d)
    ensures FirstType(pats, d).Some? ==>
              k < |pats| && SearchAtEnd(pats[k].0, d) && FirstType(pats, d).value == pats[k].1
              && forall m :: 0 <= m < k ==> !SearchAtEnd(pats[m].0, d)
  {
    k := 0;
    if pats != [] && !SearchAtEnd(pats[0].0, d) {
      var k1 := FirstTypeSpec(pats[1..], d);
      k := k1 + 1;
      forall m | 0 <= m < |pats| && m != 0 ensures pats[m] == pats[1..][m - 1] { }
    }
  }

  // -------------------------------------------------------- the decision

  /** `is_valid_domain` on given lists and suffix set: the custom lists
      first, blocked before allowed, then the format, then at least two
      labels, then the public suffix check on the last two labels or on
      `*.` and the last label. */
  function DomainVerdict(allowed: set<string>, blocked: set<string>, suffixes: set<string>,
                         ct: CharTables, domain: string): Verdict
  {
    var d := ct.lower(domain);
    if d in blocked then Verdict(false, "Blocked Domain")
    else if d in allowed then Verdict(true, "Allowed Domain")
    else if !DollarMatch(HostBody, d) then Verdict(false, "Invalid Format")
    else
      var parts := SplitOn(d, ".");
      if |parts| < 2 then Verdict(false, "Invalid Format")
      else if Join(parts[|parts| - 2..], ".") in suffixes || "*." + parts[|parts| - 1] in suffixes then
        match FirstType(DomainPatterns, d)
        case Some(t) => Verdict(true, "Valid " + t)
        case None => Verdict(true, "Valid Domain")
      else Verdict(false, "Unknown TLD")
  }

  /** The suffix looked up is the last two labels joined by a dot. */
  lemma LastTwoLabels(parts: seq<string>)
    requires |parts| >= 2
    ensures Join(parts[|parts| - 2..], ".") == parts[|parts| - 2] + "." + parts[|parts| - 1]
  {
    var two := parts[|parts| - 2..];
    assert two[1..] == [parts[|parts| - 1]];
  }

  /** A domain is accepted iff it is on the allowed list and not on the
      blocked one, or it is on neither, is well formed with at least two
      labels, and its last two labels or `*.` and its last label are a
      public suffix; the reason names the first matching type. A
      well-formed domain without a dot is rejected as badly formed. */
  lemma DomainVerdictSpec(allowed: set<string>, blocked: set<string>, suffixes: set<string>,
                          ct: CharTables, domain: string)
    ensures var d := ct.lower(domain);
            var v := DomainVerdict(allowed, blocked, suffixes, ct, domain);
            var parts := SplitOn(d, ".");
            var n := |parts|;
            (d in blocked ==> v == Verdict(false, "Blocked Domain"))
            && (d !in blocked && d in allowed ==> v == Verdict(true, "Allowed Domain"))
            && (d !in blocked && d !in allowed && (!DollarMatch(HostBody, d) || !Contains(d, ".")) ==>
                  v == Verdict(false, "Invalid Format"))
            && (v.valid <==>
                  ((d in allowed && d !in blocked)
                   || (d !in allowed && d !in blocked && DollarMatch(HostBody, d) && n >= 2
                       && (parts[n - 2] + "." + parts[n - 1] in suffixes || "*." + parts[n - 1] in suffixes))))
            && (v.valid && d !in allowed && d !in blocked ==>
                  v.reason == (match FirstType(DomainPatterns, d)
                               case Some(t) => "Valid " + t
                               case None => "Valid Domain"))
  {
    var d := ct.lower(domain);
    SplitOnContains(d, ".");
    var parts := SplitOn(d, ".");
    if |parts| >= 2 {
      LastTwoLabels(parts);
    }
  }

  /** When the lower-case map is idempotent on the domain, a domain and its
      lower-case form get the same answer. */
  lemma DomainCaseInsensitive(allowed: set<string>, blocked: set<string>, suffixes: set<string>,
                              ct: CharTables, domain: string)
    requires ct.lower(ct.lower(domain)) == ct.lower(domain)
    ensures DomainVerdict(allowed, blocked, suffixes, ct, domain)
            == DomainVerdict(allowed, blocked, suffixes, ct, ct.lower(domain))
  {
  }

  /** The first pattern in table order decides the type: `.edu.tr` is an
      international educational domain, `.ac.uk` an academic one. */
  lemma PatternExamples()
    ensures FirstType(DomainPatterns, "x.edu") == Some("Educational Institution")
    ensures FirstType(DomainPatterns, "x.edu.tr") == Some("International Educational Institution")
    ensures FirstType(DomainPatterns, "x.ac.uk") == Some("Academic Institution")
  {
    assert SearchAtEnd(DomainPatterns[0].0, "x.edu") by { assert "x.edu"[1..] == ".edu"; }
    assert !SearchAtEnd(DomainPatterns[0].0, "x.edu.tr") by { assert "x.edu.tr"[4] != ".edu"[0]; }
    assert SearchAtEnd(DomainPatterns[1].0, "x.edu.tr") by { assert "x.edu.tr"[1..6] == ".edu."; }
    assert !SearchAtEnd(DomainPatterns[0].0, "x.ac.uk") by { assert "x.ac.uk"[3] != ".edu"[0]; }
    assert !SearchAtEnd(DomainPatterns[1].0, "x.ac.uk") by { assert "x.ac.uk"[0] != ".edu."[0]; }
    assert SearchAtEnd(DomainPatterns[2].0, "x.ac.uk") by { assert "x.ac.uk"[1..5] == ".ac."; }
  }

  // ------------------------------------------------------- the validator

  /** `DomainValidator`: the custom lists it updates, and the public suffix
      set (downloaded or read from its cache, given here). */
  class DomainValidator {
    var allowed: set<string>
    var blocked: set<string>
    const suffixes: set<string>
    const ct: CharTables

    constructor (allowed0: set<string>, blocked0: set<string>, suffixes0: set<string>, ct0: CharTables)
      ensures allowed == allowed0 && blocked == blocked0 && suffixes == suffixes0 && ct == ct0
    {
      allowed := allowed0;
      blocked := blocked0;
      suffixes := suffixes0;
      ct := ct0;
    }

    /** No domain is on both lists. */
    predicate Disjoint()
      reads this
    {
      allowed * blocked == {}
    }

    /** `add_custom_domain(domain, is_allowed)`: the lower-cased domain
        joins the chosen list and leaves the other. */
    method AddCustomDomain(domain: string, isAllowed: bool)
      modifies this
      ensures var d := ct.lower(domain);
              if isAllowed then allowed == old(allowed) + {d} && blocked == old(blocked) - {d}
              else blocked == old(blocked) + {d} && allowed == old(allowed) - {d}
      ensures old(Disjoint()) ==> Disjoint()
    {
      var d := ct.lower(domain);
      if isAllowed {
        blocked := blocked - {d};
        allowed := allowed + {d};
      } else {
        allowed := allowed - {d};
        blocked := blocked + {d};
      }
    }

    /** `remove_custom_domain(domain)`: the lower-cased domain leaves both
        lists. */
    method RemoveCustomDomain(domain: string)
      modifies this
      ensures allowed == old(allowed) - {ct.lower(domain)} && blocked == old(blocked) - {ct.lower(domain)}
      ensures old(Disjoint()) ==> Disjoint()
    {
      var d := ct.lower(domain);
      allowed := allowed - {d};
      blocked := blocked - {d};
    }

    /** `is_valid_domain(domain)`. */
    function IsValidDomain(domain: string): Verdict
      reads this
    {
      DomainVerdict(allowed, blocked, suffixes, ct, domain)
    }
  }

  /** A domain just added to the allowed list passes, one just added to the
      blocked list fails, and a removed one goes through the format and
      suffix checks. */
  lemma AfterAdd(allowed: set<string>, blocked: set<string>, suffixes: set<string>, ct: CharTables, domain: string)
    requires ct.lower(ct.lower(domain)) == ct.lower(domain)
    ensures var d := ct.lower(domain);
            DomainVerdict(allowed + {d}, blocked - {d}, suffixes, ct, domain) == Verdict(true, "Allowed Domain")
            && DomainVerdict(allowed - {d}, blocked + {d}, suffixes, ct, domain) == Verdict(false, "Blocked Domain")
            && DomainVerdict(allowed - {d}, blocked - {d}, suffixes, ct, domain)
               == DomainVerdict({}, {}, suffixes, ct, domain)
  {
  }

  /** `email.split('@')[-1]` */
  function DomainPart(e: string): string
  {
    var ps := SplitOn(e, "@");
    ps[|ps| - 1]
  }

  /** The domain part holds no `'@'`; it is all of an address without
      `'@'`, and otherwise what follows the last `'@'`. */
  lemma DomainPartSpec(e: string) returns (p: string)
    ensures !Contains(DomainPart(e), "@")
    ensures !Contains(e, "@") ==> DomainPart(e) == e
    ensures Contains(e, "@") ==> e == p + "@" + DomainPart(e)
  {
    p := SplitOnLast(e, "@");
    SplitOnPiecesFree(e, "@");
    SplitOnContains(e, "@");
  }

  /** `validate_email_address(email, validator)` with a validator given;
      `format` is the address pattern. */
  function ValidateEmailAddress(email: Cell, v: DomainValidator, format: string -> bool): Verdict
    reads v
  {
    var e := Strip(Str(email));
    if !format(e) then Verdict(false, "Invalid Email Format")
    else v.IsValidDomain(v.ct.lower(DomainPart(e)))
  }
}
