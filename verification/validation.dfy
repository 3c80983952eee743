/** Validation and sanitising helpers of the server (`api/utils.php`) with the configuration constants
    they read (`api/config.php`), and the browser clients' e-mail check. Every predicate is total. */
module Validation {
  import opened Wrappers
  import opened Text
  import opened Seqs
  import opened Calendar
  import opened Slots

  /** `ALLOWED_EMAIL_DOMAINS`; the clients hard-code the same two domains. */
  const AllowedEmailDomains: seq<string> := ["alu.medac.es", "medac.es"]

  /** `CHAIRS` on the server and `CONFIG.CHAIRS` in both clients. */
  const Chairs: seq<string> := ["rojo", "azul", "amarillo"]

  // ---------------------------------------------------------------------------
  // E-mail
  // ---------------------------------------------------------------------------

  /** Server `validateEmail`: the syntax verdict of PHP's `FILTER_VALIDATE_EMAIL` (passed in as
      `syntaxOk`), then exactly two pieces around '@', then a lower-cased domain on the allow-list. */
  function ValidateEmail(email: string, syntaxOk: string -> bool): bool {
    if !syntaxOk(email) then false
    else
      var parts := Split(email, '@');
      if |parts| != 2 then false
      else ToLower(parts[1]) in AllowedEmailDomains
  }

  /** What the server accepts, stated without splitting: a single '@' whose right-hand side,
      lower-cased, is an allowed domain; the local part is not inspected beyond the syntax check. */
  lemma ValidateEmailIff(email: string, syntaxOk: string -> bool, k: nat)
    requires k < |email| && email[k] == '@'
    ensures ValidateEmail(email, syntaxOk)
        <==> syntaxOk(email) && Count(email, '@') == 1 && ToLower(email[k + 1..]) in AllowedEmailDomains
  {
    if Count(email, '@') == 1 {
      SplitOnce(email, '@', k);
    }
  }

  /** Without any '@' the server rejects. */
  lemma ValidateEmailNeedsAt(email: string, syntaxOk: string -> bool)
    requires '@' !in email
    ensures !ValidateEmail(email, syntaxOk)
  {
    CountZeroIffAbsent(email, '@');
  }

  /** The domain comparison ignores ASCII case: two addresses that differ only in the case of the
      domain are judged alike (given the same syntax verdict). */
  lemma ValidateEmailDomainCase(local: string, domain: string, domain': string, syntaxOk: string -> bool)
    requires '@' !in local && '@' !in domain && '@' !in domain'
    requires ToLower(domain) == ToLower(domain')
    requires syntaxOk(local + "@" + domain) == syntaxOk(local + "@" + domain')
    ensures ValidateEmail(local + "@" + domain, syntaxOk) == ValidateEmail(local + "@" + domain', syntaxOk)
  {
    SplitAfterPiece(local, '@', domain);
    SplitAfterPiece(local, '@', domain');
    SplitWithoutSeparator(domain, '@');
    SplitWithoutSeparator(domain', '@');
  }

  /** A run of the character class `[^\s@]+`. */
  predicate PlainRun(s: string) {
    |s| > 0 && forall i :: 0 <= i < |s| ==> !JsSpace(s[i]) && s[i] != '@'
  }

  /** The domain half of the client pattern: `[^\s@]+\.[^\s@]+`. */
  predicate DottedRun(s: string) {
    PlainRun(s) && exists j :: 0 < j < |s| - 1 && s[j] == '.'
  }

  /** The client pattern `/^[^\s@]+@[^\s@]+\.[^\s@]+$/`. */
  predicate EmailPattern(e: string) {
    exists k :: 0 < k < |e| && e[k] == '@' && PlainRun(e[..k]) && DottedRun(e[k + 1..])
  }

  lemma PatternSplit(e: string)
    requires EmailPattern(e)
    ensures Count(e, '@') == 1
    ensures |Split(e, '@')| == 2
  {
    var k :| 0 < k < |e| && e[k] == '@' && PlainRun(e[..k]) && DottedRun(e[k + 1..]);
    assert e == e[..k] + ([e[k]] + e[k + 1..]);
    CountAppend(e[..k], [e[k]] + e[k + 1..], '@');
    CountAppend([e[k]], e[k + 1..], '@');
    PlainRunHasNoAt(e[..k]);
    PlainRunHasNoAt(e[k + 1..]);
    CountZeroIffAbsent(e[..k], '@');
    CountZeroIffAbsent(e[k + 1..], '@');
  }

  /** Client `validateEmail`: the pattern, then the lower-cased text after '@' must be an allowed domain. */
  function ClientValidateEmail(e: string): bool {
    if !EmailPattern(e) then false
    else
      PatternSplit(e);
      ToLower(Split(e, '@')[1]) in AllowedEmailDomains
  }

  /** Independent statement of the client rule: one '@', a non-empty local part without white space,
      and an allowed domain up to ASCII case. */
  ghost predicate ClientEmailRule(e: string) {
    exists k :: 0 < k < |e| && e[k] == '@' && Count(e, '@') == 1
      && (forall i :: 0 <= i < k ==> !JsSpace(e[i]))
      && ToLower(e[k + 1..]) in AllowedEmailDomains
  }

  /** A domain that lower-cases to an allowed one is a valid domain half of the pattern. */
  lemma AllowedDomainIsDotted(d: string)
    requires ToLower(d) in AllowedEmailDomains
    ensures DottedRun(d)
  {
    var t := ToLower(d);
    forall i | 0 <= i < |d|
      ensures !JsSpace(d[i]) && d[i] != '@'
    {
      assert LowerChar(d[i]) == t[i];
      assert t[i] in t;
    }
    var j := if t == "alu.medac.es" then 3 else 5;
    assert t[j] == '.';
    assert d[j] == '.';
  }

  /** The client check accepts exactly the addresses the rule describes. */
  lemma ClientValidateEmailIff(e: string)
    ensures ClientValidateEmail(e) <==> ClientEmailRule(e)
  {
    if ClientValidateEmail(e) {
      var k :| 0 < k < |e| && e[k] == '@' && PlainRun(e[..k]) && DottedRun(e[k + 1..]);
      PatternSplit(e);
      SplitOnce(e, '@', k);
      assert forall i :: 0 <= i < k ==> e[..k][i] == e[i];
    }
    if ClientEmailRule(e) {
      var k :| 0 < k < |e| && e[k] == '@' && Count(e, '@') == 1
        && (forall i :: 0 <= i < k ==> !JsSpace(e[i]))
        && ToLower(e[k + 1..]) in AllowedEmailDomains;
      CountOneUnique(e, '@', k);
      assert PlainRun(e[..k]);
      AllowedDomainIsDotted(e[k + 1..]);
      assert EmailPattern(e);
      PatternSplit(e);
      SplitOnce(e, '@', k);
    }
  }

  /** Any plain local part at either institutional domain passes the client check. */
  lemma ClientEmailAccepts(local: string, domain: string)
    requires PlainRun(local) && domain in AllowedEmailDomains
    ensures ClientValidateEmail(local + "@" + domain)
  {
    assert local + ['@'] + domain == local + "@" + domain;
    AllowedDomainsLower(domain);
    ClientAcceptsParts(local, domain);
  }

  lemma ClientAcceptsParts(local: string, domain: string)
    requires PlainRun(local) && ToLower(domain) in AllowedEmailDomains
    ensures ClientValidateEmail(local + ['@'] + domain)
  {
    var e := local + ['@'] + domain;
    PatternOfParts(local, domain);
    AllowedDomainIsDotted(domain);
    PlainRunHasNoAt(local);
    PlainRunHasNoAt(domain);
    SplitAfterPiece(local, '@', domain);
    SplitWithoutSeparator(domain, '@');
    assert Split(e, '@') == [local, domain];
  }

  lemma PlainRunHasNoAt(s: string)
    requires PlainRun(s)
    ensures '@' !in s
  {
  }

  lemma AllowedDomainsLower(d: string)
    requires d in AllowedEmailDomains
    ensures ToLower(d) == d
  {
  }

  lemma PatternOfParts(local: string, domain: string)
    requires PlainRun(local) && ToLower(domain) in AllowedEmailDomains
    ensures EmailPattern(local + ['@'] + domain)
  {
    var e := local + ['@'] + domain;
    AllowedDomainIsDotted(domain);
    assert e[..|local|] == local && e[|local| + 1..] == domain;
  }

  /** Any domain outside the list, in any case, is refused. */
  lemma ClientEmailRejectsDomain(local: string, domain: string)
    requires '@' !in local && '@' !in domain && ToLower(domain) !in AllowedEmailDomains
    ensures !ClientValidateEmail(local + "@" + domain)
  {
    var e := local + ['@'] + domain;
    assert e == local + "@" + domain;
    SplitAfterPiece(local, '@', domain);
    SplitWithoutSeparator(domain, '@');
  }

  /** Text without '@' is refused. */
  lemma ClientEmailRejectsNoAt(e: string)
    requires '@' !in e
    ensures !ClientValidateEmail(e)
  {
    forall k | 0 <= k < |e|
      ensures e[k] != '@'
    {
      assert e[k] in e;
    }
  }

  /** The client is stricter than the server: an address the page accepts is accepted by the server's
      check whenever the server's syntax check agrees. */
  lemma ClientEmailPassesServer(e: string, syntaxOk: string -> bool)
    requires ClientValidateEmail(e) && syntaxOk(e)
    ensures ValidateEmail(e, syntaxOk)
  {
    PatternSplit(e);
  }

  // ---------------------------------------------------------------------------
  // Sanitising: trim, then (abstract) strip_tags, then htmlspecialchars with ENT_QUOTES
  // ---------------------------------------------------------------------------

  /** The characters `htmlspecialchars` must never leave raw (besides '&', which it always re-encodes). */
  predicate HtmlSpecial(c: char) {
    c == '<' || c == '>' || c == '"' || c == '\''
  }

  function EscapeChar(c: char): string {
    if c == '&' then "&amp;"
    else if c == '<' then "&lt;"
    else if c == '>' then "&gt;"
    else if c == '"' then "&quot;"
    else if c == '\'' then "&#039;"
    else [c]
  }

  /** `htmlspecialchars($s, ENT_QUOTES, 'UTF-8')`. */
  function HtmlEscape(s: string): string {
    if |s| == 0 then "" else EscapeChar(s[0]) + HtmlEscape(s[1..])
  }

  /** Escaping never shortens the text and leaves no raw `< > " '` in it. */
  lemma {:induction false} EscapeShape(s: string)
    ensures forall i :: 0 <= i < |HtmlEscape(s)| ==> !HtmlSpecial(HtmlEscape(s)[i])
    ensures |HtmlEscape(s)| >= |s|
  {
    if |s| > 0 {
      EscapeShape(s[1..]);
    }
  }

  predicate StartsWith(s: string, p: string) {
    |p| <= |s| && s[..|p|] == p
  }

  /** Decoding of the five entities `htmlspecialchars` produces. */
  function HtmlUnescape(s: string): string
    decreases |s|
  {
    if |s| == 0 then ""
    else if StartsWith(s, "&amp;") then "&" + HtmlUnescape(s[5..])
    else if StartsWith(s, "&lt;") then "<" + HtmlUnescape(s[4..])
    else if StartsWith(s, "&gt;") then ">" + HtmlUnescape(s[4..])
    else if StartsWith(s, "&quot;") then "\"" + HtmlUnescape(s[6..])
    else if StartsWith(s, "&#039;") then "'" + HtmlUnescape(s[6..])
    else [s[0]] + HtmlUnescape(s[1..])
  }

  lemma DiffersAt(e: string, p: string, i: nat)
    requires i < |p| && i < |e| && e[i] != p[i]
    ensures !StartsWith(e, p)
  {
    if |p| <= |e| {
      assert e[..|p|][i] == e[i];
    }
  }

  lemma StartsWithPrefix(p: string, rest: string)
    ensures StartsWith(p + rest, p) && (p + rest)[|p|..] == rest
  {
    assert (p + rest)[..|p|] == p;
  }

  /** Decoding one escaped character and then the rest. */
  lemma UnescapeStep(c: char, rest: string)
    ensures HtmlUnescape(EscapeChar(c) + rest) == [c] + HtmlUnescape(rest)
  {
    var e := EscapeChar(c) + rest;
    StartsWithPrefix(EscapeChar(c), rest);
    if c == '&' {
    } else if c == '<' {
      DiffersAt(e, "&amp;", 1);
    } else if c == '>' {
      DiffersAt(e, "&amp;", 1);
      DiffersAt(e, "&lt;", 1);
    } else if c == '"' {
      DiffersAt(e, "&amp;", 1);
      DiffersAt(e, "&lt;", 1);
      DiffersAt(e, "&gt;", 1);
    } else if c == '\'' {
      DiffersAt(e, "&amp;", 1);
      DiffersAt(e, "&lt;", 1);
      DiffersAt(e, "&gt;", 1);
      DiffersAt(e, "&quot;", 1);
    } else {
      DiffersAt(e, "&amp;", 0);
      DiffersAt(e, "&lt;", 0);
      DiffersAt(e, "&gt;", 0);
      DiffersAt(e, "&quot;", 0);
      DiffersAt(e, "&#039;", 0);
    }
  }

  /** Escaping loses nothing: decoding the entities gives the text back. */
  lemma {:induction false} UnescapeEscape(s: string)
    ensures HtmlUnescape(HtmlEscape(s)) == s
  {
    if |s| > 0 {
      UnescapeEscape(s[1..]);
      UnescapeStep(s[0], HtmlEscape(s[1..]));
      assert s == [s[0]] + s[1..];
    }
  }

  /** Escaping is not idempotent: '&' is encoded again on every pass. */
  lemma EscapeNotIdempotent()
    ensures HtmlEscape("&") == "&amp;"
    ensures HtmlEscape(HtmlEscape("&")) == "&amp;amp;"
  {
    assert HtmlEscape("&") == "&amp;" + HtmlEscape("");
    var once := "&amp;";
    assert once == ['&'] + "amp;";
    assert HtmlEscape(once) == "&amp;" + HtmlEscape("amp;");
  }

  /** `sanitizeInput` on a string: trim, `strip_tags` (passed in), then HTML-escape. */
  function Sanitize(s: string, stripTags: string -> string): string {
    HtmlEscape(stripTags(PhpTrim(s)))
  }

  /** Sanitising keeps the tag-stripped, trimmed text recoverable and leaves no raw `< > " '`. */
  lemma SanitizeMeaning(s: string, stripTags: string -> string)
    ensures HtmlUnescape(Sanitize(s, stripTags)) == stripTags(PhpTrim(s))
    ensures forall i :: 0 <= i < |Sanitize(s, stripTags)| ==> !HtmlSpecial(Sanitize(s, stripTags)[i])
  {
    UnescapeEscape(stripTags(PhpTrim(s)));
    EscapeShape(stripTags(PhpTrim(s)));
  }

  /** The page accepts a quote in the local part, but the server sanitises the address before checking it,
      so it checks a different string from the one the page accepted (`o'brien@` becomes `o&#039;brien@`). */
  lemma SanitizeRewritesAccepted(local: string, domain: string, stripTags: string -> string)
    requires PlainRun(local) && domain in AllowedEmailDomains && '\'' in local
    ensures ClientValidateEmail(local + "@" + domain)
    ensures Sanitize(local + "@" + domain, stripTags) != local + "@" + domain
  {
    ClientEmailAccepts(local, domain);
    SanitizeMeaning(local + "@" + domain, stripTags);
    var i :| 0 <= i < |local| && local[i] == '\'';
    assert (local + "@" + domain)[i] == '\'';
  }

  /** A request value: a string, or an array of values. */
  datatype Input = Scalar(text: string) | List(items: seq<Input>)

  ghost predicate SameShape(a: Input, b: Input) {
    match a
    case Scalar(_) => b.Scalar?
    case List(xs) => b.List? && |b.items| == |xs| && forall i :: 0 <= i < |xs| ==> SameShape(xs[i], b.items[i])
  }

  /** Every string inside the value is free of raw `< > " '`. */
  ghost predicate Escaped(a: Input) {
    match a
    case Scalar(t) => forall i :: 0 <= i < |t| ==> !HtmlSpecial(t[i])
    case List(xs) => forall i :: 0 <= i < |xs| ==> Escaped(xs[i])
  }

  /** `sanitizeInput`: arrays are sanitised element by element, strings as above. */
  function SanitizeInput(x: Input, stripTags: string -> string): (r: Input)
    ensures SameShape(x, r)
    ensures Escaped(r)
  {
    match x
    case Scalar(t) =>
      EscapeShape(stripTags(PhpTrim(t)));
      Scalar(Sanitize(t, stripTags))
    case List(xs) => List(seq(|xs|, i requires 0 <= i < |xs| => SanitizeInput(xs[i], stripTags)))
  }

  // ---------------------------------------------------------------------------
  // Required parameters
  // ---------------------------------------------------------------------------

  /** `!isset($data[$p]) || trim($data[$p]) === ''`: the name is absent or its value consists only of
      characters `trim` removes (`BlankIffTrimEmpty`). */
  predicate Blank(data: map<string, string>, p: string) {
    p !in data || forall i :: 0 <= i < |data[p]| ==> PhpSpace(data[p][i])
  }

  lemma BlankIffTrimEmpty(data: map<string, string>, p: string)
    ensures Blank(data, p) <==> p !in data || PhpTrim(data[p]) == ""
  {
    if p in data {
      TrimEmptyIffAllSpace(data[p], PhpSpace);
    }
  }

  /** The list `requireParams` reports: the required names that are absent or blank, in the order given. */
  function MissingParams(data: map<string, string>, required: seq<string>): (missing: seq<string>)
    ensures forall p :: p in missing <==> p in required && Blank(data, p)
    ensures IsSubsequence(missing, required)
  {
    var keep := p => Blank(data, p);
    FilterMultiset(required, keep);
    Filter(required, keep)
  }

  /** Every required name is present and not blank after trimming. */
  predicate ParamsPresent(data: map<string, string>, required: seq<string>) {
    forall p :: p in required ==> !Blank(data, p)
  }

  /** `requireParams` raises no error exactly when every required name is present with a value
      that is not entirely white space. */
  lemma RequireParamsPasses(data: map<string, string>, required: seq<string>)
    ensures |MissingParams(data, required)| == 0 <==> ParamsPresent(data, required)
    ensures |MissingParams(data, required)| == 0
        <==> forall p :: p in required ==> p in data && exists i :: 0 <= i < |data[p]| && !PhpSpace(data[p][i])
  {
    var missing := MissingParams(data, required);
    if |missing| > 0 {
      assert missing[0] in missing;
    }
  }

  // ---------------------------------------------------------------------------
  // Date, weekday, slot index, chair
  // ---------------------------------------------------------------------------

  /** `validateDate`: `createFromFormat('Y-m-d')` succeeds and formats back to the same string. */
  predicate ValidateDate(s: string) {
    ParseIsoDate(s).Some?
  }

  /** `isFriday` on a date that passed `validateDate`: `format('N') == 5`. */
  predicate ServerIsFriday(d: Date) {
    IsoWeekday(d) == 5
  }

  /** `validateSlotIndex` on an integer: `$index >= 0 && $index < 8`, a bound written as a literal. */
  predicate ValidateSlotIndex(i: int) {
    0 <= i < 8
  }

  /** The server's slot-index bound is one larger than the calendar: it accepts every real slot index
      and also index 7, which no slot of the shipped schedule has. */
  lemma SlotIndexBoundMismatch()
    ensures |TimeSlots(Shipped)| == 7
    ensures forall i :: ValidateSlotIndex(i) <==> 0 <= i <= |TimeSlots(Shipped)|
    ensures ValidateSlotIndex(7) && !(7 < |TimeSlots(Shipped)|)
  {
    ShippedSlots();
  }

  /** `validateChair`: membership in `CHAIRS`. */
  function ValidateChair(c: string): (ok: bool)
    ensures ok <==> c == "rojo" || c == "azul" || c == "amarillo"
  {
    c in Chairs
  }

  // ---------------------------------------------------------------------------
  // Session
  // ---------------------------------------------------------------------------

  /** The two session entries the server reads. */
  datatype Session = Session(userId: Option<int>, username: Option<string>)

  /** `isAuthenticated`: both `user_id` and `username` are set. */
  predicate IsAuthenticated(s: Session) {
    s.userId.Some? && s.username.Some?
  }

  /** `requireAuth`: the 401 it sends when the session is not authenticated, or nothing. */
  function RequireAuth(s: Session): (failure: Option<int>)
    ensures failure.None? <==> s.userId.Some? && s.username.Some?
    ensures failure.Some? ==> failure.value == 401
  {
    if IsAuthenticated(s) then None else Some(401)
  }
}
