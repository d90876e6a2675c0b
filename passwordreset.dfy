/** ForgotPassword: the input is classified as an email or a username by a
    regular expression, the matching user's email is looked up, and a
    simulated mailer reports success or failure. No table changes. */
module PasswordReset {
  import opened Php
  import opened Http
  import opened Schema
  import opened Store

  /** The character classes of the pattern
      `^[a-zA-Z0-9._%+-]+@[a-zA-Z0-9.-]+\.[a-zA-Z]{2,}$`. */
  predicate Letter(c: char) {
    'a' <= c <= 'z' || 'A' <= c <= 'Z'
  }

  predicate DomainChar(c: char) {
    Letter(c) || IsDigit(c) || c == '.' || c == '-'
  }

  predicate LocalChar(c: char) {
    DomainChar(c) || c == '_' || c == '%' || c == '+'
  }

  /** The strings the pattern describes: a non-empty local part, '@' at `at`,
      a non-empty domain, '.' at `dot`, then two or more letters to the end. */
  predicate ShapeAt(s: string, at: int, dot: int) {
    && 0 < at && at + 1 < dot && dot + 2 < |s|
    && (forall i :: 0 <= i < at ==> LocalChar(s[i]))
    && s[at] == '@'
    && (forall i :: at < i < dot ==> DomainChar(s[i]))
    && s[dot] == '.'
    && (forall i :: dot < i < |s| ==> Letter(s[i]))
  }

  ghost predicate Shape(s: string) {
    exists at, dot :: ShapeAt(s, at, dot)
  }

  /** The length of the longest prefix of local-part characters. */
  function LocalSpan(s: string): (n: nat)
    ensures n <= |s|
    ensures forall i :: 0 <= i < n ==> LocalChar(s[i])
    ensures n < |s| ==> !LocalChar(s[n])
  {
    if s == [] || !LocalChar(s[0]) then 0 else 1 + LocalSpan(s[1..])
  }

  /** The index of the last '.', or -1 when there is none. */
  function LastDot(s: string): (k: int)
    ensures -1 <= k < |s|
    ensures k >= 0 ==> s[k] == '.'
    ensures forall i :: k < i < |s| ==> s[i] != '.'
  {
    if s == [] then -1
    else if s[|s| - 1] == '.' then |s| - 1
    else LastDot(s[..|s| - 1])
  }

  /** A matcher for the pattern without backtracking: the local part runs up
      to the first character it may not hold, which must be '@'; the rest
      holds only domain characters; and the last '.' splits it into a
      non-empty domain and a tail of at least two letters. */
  predicate Match(s: string) {
    var at := LocalSpan(s);
    var dot := LastDot(s);
    && 0 < at && at + 1 < dot && dot + 2 < |s|
    && s[at] == '@'
    && (forall i :: at < i < |s| ==> DomainChar(s[i]))
    && (forall i :: dot < i < |s| ==> Letter(s[i]))
  }

  /** The local span stops exactly at the first non-local character. */
  lemma {:induction false} LocalSpanStops(s: string, at: nat)
    requires at < |s| && !LocalChar(s[at])
    requires forall i :: 0 <= i < at ==> LocalChar(s[i])
    ensures LocalSpan(s) == at
  {
    if at > 0 {
      LocalSpanStops(s[1..], at - 1);
    }
  }

  /** The last '.' is the one no later '.' follows. */
  lemma {:induction false} LastDotIs(s: string, dot: nat)
    requires dot < |s| && s[dot] == '.'
    requires forall i :: dot < i < |s| ==> s[i] != '.'
    ensures LastDot(s) == dot
  {
    if dot < |s| - 1 {
      LastDotIs(s[..|s| - 1], dot);
    }
  }

  /** The matcher accepts exactly the strings the pattern describes. */
  lemma MatchIsShape(s: string)
    ensures Match(s) <==> Shape(s)
  {
    if Match(s) {
      assert ShapeAt(s, LocalSpan(s), LastDot(s));
    }
    if Shape(s) {
      var at, dot :| ShapeAt(s, at, dot);
      LocalSpanStops(s, at);
      LastDotIs(s, dot);
    }
  }

  /** Whatever matches holds exactly one '@', at the end of the local part,
      and ends with '.' and at least two letters. */
  lemma ShapeFacts(s: string)
    requires Shape(s)
    ensures var at := LocalSpan(s);
      at < |s| && s[at] == '@' && forall i :: 0 <= i < |s| && s[i] == '@' ==> i == at
    ensures 3 <= |s| && s[LastDot(s)] == '.' && LastDot(s) + 3 <= |s|
    ensures forall i :: LastDot(s) < i < |s| ==> Letter(s[i])
  {
    MatchIsShape(s);
  }

  /** `preg_match` with this pattern: `$` also matches before a final line
      feed, so one trailing "\n" is tolerated. */
  predicate PregMatch(s: string) {
    Match(s) || (0 < |s| && s[|s| - 1] == '\n' && Match(s[..|s| - 1]))
  }

  /** The trailing line feed is accepted by `preg_match` but not by the
      pattern read as a whole-string match. */
  lemma TrailingLineFeed()
    ensures PregMatch("a@b.cd\n") && !Shape("a@b.cd\n")
  {
    var s := "a@b.cd\n";
    assert s[..|s| - 1] == "a@b.cd";
    assert LocalSpan("a@b.cd") == 1 by {
      assert !LocalChar('@');
      assert LocalSpan("@b.cd") == 0;
      assert "a@b.cd"[1..] == "@b.cd";
    }
    assert LastDot("a@b.cd") == 3 by {
      assert "a@b.cd"[..5] == "a@b.c";
      assert "a@b.c"[..4] == "a@b.";
    }
    assert Match("a@b.cd");
    MatchIsShape(s);
    assert !Letter(s[6]);
  }

  /** Text without '@' never matches. */
  lemma NoAtNoMatch(s: string)
    ensures '@' !in s ==> !PregMatch(s)
  {
    if Match(s) {
      assert s[LocalSpan(s)] == '@';
    }
    if 0 < |s| && Match(s[..|s| - 1]) {
      var t := s[..|s| - 1];
      assert t[LocalSpan(t)] == '@';
      assert t[LocalSpan(t)] == s[LocalSpan(t)];
    }
  }

  /** Which column the handler searches, and for what. A missing input is
      bound as NULL, which no `email = NULL` comparison matches. */
  datatype Lookup = ByUsername(username: string) | ByEmail(email: string) | ByNull

  /** Non-empty input that does not match is a username; matching or empty
      input is an email. */
  function Classify(input: Option<string>): (l: Lookup)
    ensures input.None? <==> l.ByNull?
    ensures l.ByUsername? <==> input.Some? && !Empty(input.value) && !PregMatch(input.value)
    ensures l.ByUsername? ==> l.username == input.value
    ensures l.ByEmail? ==> l.email == input.value
  {
    match input
    case None => ByNull
    case Some(s) => if !PregMatch(s) && !Empty(s) then ByUsername(s) else ByEmail(s)
  }

  /** `fetchColumn()` returns an email PHP counts as true: a matching user
      exists and its email is neither "" nor "0". By email, every matching
      row holds the input itself. */
  predicate Found(users: map<int, User>, l: Lookup) {
    match l
    case ByUsername(name) => exists id :: id in users && users[id].username == name && !Empty(users[id].email)
    case ByEmail(email) => !Empty(email) && EmailTaken(users, email)
    case ByNull => false
  }

  /** ForgotPassword with `coin` standing for `rand(0,1)`: 404 unless an
      email is found, otherwise 200 with one of the two mailer messages. */
  function ForgotPassword(users: map<int, User>, input: Option<string>, coin: bool): (resp: Response)
    ensures resp.status == 200 <==> Found(users, Classify(input))
    ensures resp.status != 200 ==> resp == Response(404, Message("User not found"))
    ensures resp.status == 200 ==>
      resp.body == Message("Email send error") || resp.body == Message("Email sent successfully")
  {
    if !Found(users, Classify(input)) then Response(404, Message("User not found"))
    else if coin then Response(200, Message("Email send error"))
    else Response(200, Message("Email sent successfully"))
  }

  /** A username (text without '@') is looked up by username, and is found
      exactly when that user exists with a non-empty email. */
  lemma UsernameLookup(users: map<int, User>, s: string, coin: bool)
    requires '@' !in s && !Empty(s)
    ensures Classify(Some(s)) == ByUsername(s)
    ensures ForgotPassword(users, Some(s), coin).status == 200 <==>
      exists id :: id in users && users[id].username == s && !Empty(users[id].email)
  {
    NoAtNoMatch(s);
  }

  /** An address is looked up by email, and is found exactly when some user
      has it. */
  lemma EmailLookup(users: map<int, User>, s: string, coin: bool)
    requires Shape(s)
    ensures Classify(Some(s)) == ByEmail(s)
    ensures ForgotPassword(users, Some(s), coin).status == 200 <==> EmailTaken(users, s)
  {
    MatchIsShape(s);
    ShapeFacts(s);
  }
}
