/** Which upstream responses enter the cache, and as what entry: `parse_vary` and
    `decide_caching` of src/cache.rs, and `maybe_cache` of src/proxy.rs. */
module CachePolicy {
  import opened Common
  import opened VarySignature
  import opened ResponseCache

  const MAX_ENTRY_BYTES: nat := 4 * 1024 * 1024

  predicate ServerError(status: nat) { 500 <= status < 600 }

  datatype Response = Response(status: nat, headers: Headers, body: string)

  /** One `proxy_cache_valid` rule; no codes means any status. */
  datatype Rule = Rule(codes: seq<nat>, ttl: nat)

  datatype Reason = NotGet | SetCookie | VaryStar | CacheControl | TooLarge | NoRule

  datatype Decision = Store(ttl: nat) | Bypass(reason: Reason)

  /** The `X-Cache` header of the answer. */
  datatype Label = FromCache | Miss | Bypassed | Unmarked

  // ----- Comma-separated header values -----

  function Split(s: string): (parts: seq<string>)
    ensures |parts| >= 1
  {
    if s == "" then [""]
    else
      var rest := Split(s[1..]);
      if s[0] == ',' then [""] + rest else [[s[0]] + rest[0]] + rest[1..]
  }

  /** White space that a readable header value can contain. */
  predicate Blank(c: char) { c == ' ' || c == '\t' }

  function TrimStart(s: string): string {
    if s != "" && Blank(s[0]) then TrimStart(s[1..]) else s
  }

  function TrimEnd(s: string): string {
    if s != "" && Blank(s[|s| - 1]) then TrimEnd(s[..|s| - 1]) else s
  }

  function Trim(s: string): string { TrimEnd(TrimStart(s)) }

  ghost function Names(parts: seq<string>): seq<string> {
    if parts == [] then []
    else
      var t := Lower(Trim(parts[0]));
      (if t == "" then [] else [t]) + Names(parts[1..])
  }

  /** The header names listed by all readable Vary lines, in order. */
  ghost function VaryList(h: Headers): seq<string> {
    if h == [] then []
    else LineNames(h[0]) + VaryList(h[1..])
  }

  ghost function LineNames(line: (string, string)): seq<string> {
    if line.0 == "vary" && Visible(line.1) then Names(Split(line.1)) else []
  }

  lemma NamesStep(tokens: seq<string>, j: nat, out: seq<string>)
    requires j < |tokens|
    ensures var t := Lower(Trim(tokens[j]));
            out + Names(tokens[j..]) == (if t == "" then out else out + [t]) + Names(tokens[j + 1..])
  {
    assert tokens[j..][1..] == tokens[j + 1..];
  }

  method ParseNames(tokens: seq<string>) returns (out: seq<string>)
    ensures out == Names(tokens)
  {
    out := [];
    for j := 0 to |tokens|
      invariant Names(tokens) == out + Names(tokens[j..])
    {
      NamesStep(tokens, j, out);
      var t := Lower(Trim(tokens[j]));
      if t != "" {
        out := out + [t];
      }
    }
  }

  lemma VaryListStep(h: Headers, i: nat, out: seq<string>)
    requires i < |h|
    ensures out + VaryList(h[i..]) == out + LineNames(h[i]) + VaryList(h[i + 1..])
  {
    assert h[i..][1..] == h[i + 1..];
  }

  method ParseVary(h: Headers) returns (out: seq<string>)
    ensures out == VaryList(h)
  {
    out := [];
    for i := 0 to |h|
      invariant VaryList(h) == out + VaryList(h[i..])
    {
      VaryListStep(h, i, out);
      var names := ParseLine(h[i]);
      out := out + names;
    }
  }

  method ParseLine(line: (string, string)) returns (names: seq<string>)
    ensures names == LineNames(line)
  {
    if line.0 == "vary" && Visible(line.1) {
      names := ParseNames(Split(line.1));
    } else {
      names := [];
    }
  }

  // ----- The decision -----

  predicate ForbidsToken(token: string) {
    var t := Trim(token);
    t == "no-store" || t == "private" || t == "no-cache"
  }

  ghost predicate ForbidsValue(v: string) {
    Visible(v) && exists t | t in Split(Lower(v)) :: ForbidsToken(t)
  }

  /** Only the first Cache-Control line is read. */
  ghost predicate Forbidden(h: Headers) {
    match Lookup(h, "cache-control")
    case Some(v) => ForbidsValue(v)
    case None => false
  }

  predicate Covers(r: Rule, status: nat) {
    r.codes == [] || status in r.codes
  }

  /** The lifetime given by the last rule that covers a status. */
  ghost function LastRule(rules: seq<Rule>, status: nat): Option<nat> {
    if rules == [] then None
    else
      var later := LastRule(rules[1..], status);
      if later.Some? then later
      else if Covers(rules[0], status) then Some(rules[0].ttl) else None
  }

  ghost function Decide(isGet: bool, h: Headers, status: nat, bodyLen: nat, rules: seq<Rule>): Decision {
    if !isGet then Bypass(NotGet)
    else if Lookup(h, "set-cookie").Some? then Bypass(SetCookie)
    else if "*" in VaryList(h) then Bypass(VaryStar)
    else if Forbidden(h) then Bypass(CacheControl)
    else if bodyLen > MAX_ENTRY_BYTES then Bypass(TooLarge)
    else match LastRule(rules, status)
      case Some(ttl) => Store(ttl)
      case None => Bypass(NoRule)
  }

  /** The walk over the rules, in which a later rule overrides an earlier one. */
  method RuleFor(rules: seq<Rule>, status: nat) returns (ttl: Option<nat>)
    ensures ttl == LastRule(rules, status)
  {
    ttl := None;
    for i := 0 to |rules|
      invariant LastRule(rules, status) ==
                if LastRule(rules[i..], status).Some? then LastRule(rules[i..], status) else ttl
    {
      assert rules[i..][1..] == rules[i + 1..];
      if Covers(rules[i], status) {
        ttl := Some(rules[i].ttl);
      }
    }
  }

  /** The walk over the directives of the first Cache-Control line. */
  method CacheControlForbids(h: Headers) returns (forbidden: bool)
    ensures forbidden <==> Forbidden(h)
  {
    var cc := Lookup(h, "cache-control");
    if cc.Some? && Visible(cc.value) {
      var tokens := Split(Lower(cc.value));
      for i := 0 to |tokens|
        invariant forall j | 0 <= j < i :: !ForbidsToken(tokens[j])
      {
        if ForbidsToken(tokens[i]) {
          return true;
        }
      }
    }
    forbidden := false;
  }

  method DecideCaching(isGet: bool, h: Headers, status: nat, bodyLen: nat, rules: seq<Rule>)
    returns (d: Decision)
    ensures d == Decide(isGet, h, status, bodyLen, rules)
  {
    if !isGet {
      return Bypass(NotGet);
    }
    if Lookup(h, "set-cookie").Some? {
      return Bypass(SetCookie);
    }
    var vary := ParseVary(h);
    if "*" in vary {
      return Bypass(VaryStar);
    }
    var forbidden := CacheControlForbids(h);
    if forbidden {
      return Bypass(CacheControl);
    }
    if bodyLen > MAX_ENTRY_BYTES {
      return Bypass(TooLarge);
    }
    var ttl := RuleFor(rules, status);
    match ttl
    case Some(t) => return Store(t);
    case None => return Bypass(NoRule);
  }

  /** The documented rule: any Cache-Control line of the response may forbid caching. */
  ghost predicate ForbiddenByAnyLine(h: Headers) {
    exists i | 0 <= i < |h| :: ForbidsAt(h, i)
  }

  ghost predicate ForbidsAt(h: Headers, i: nat)
    requires i < |h|
  {
    h[i].0 == "cache-control" && ForbidsValue(h[i].1)
  }

  /** Line `i` is the first Cache-Control line. */
  ghost predicate FirstLine(h: Headers, i: nat)
    requires i < |h|
  {
    h[i].0 == "cache-control" && forall k | 0 <= k < i :: h[k].0 != "cache-control"
  }

  /** The first Cache-Control line does not forbid caching and a later one does. */
  ghost predicate ForbiddenTooLate(h: Headers) {
    exists i, j | 0 <= i < j < |h| :: FirstLine(h, i) && !ForbidsAt(h, i) && ForbidsAt(h, j)
  }

  lemma {:induction false} FirstIndex(h: Headers, name: string) returns (i: nat)
    ensures i <= |h| && forall k | 0 <= k < i :: h[k].0 != name
    ensures i < |h| ==> h[i].0 == name && Lookup(h, name) == Some(h[i].1)
    ensures i == |h| ==> Lookup(h, name) == None
  {
    if h == [] || h[0].0 == name {
      i := 0;
    } else {
      var j := FirstIndex(h[1..], name);
      i := j + 1;
    }
  }

  /** Some line forbids caching although the code sees none that does exactly when the first
      line does not forbid and a later one does. */
  lemma OverlookedIffTooLate(h: Headers)
    ensures ForbiddenByAnyLine(h) && !Forbidden(h) <==> ForbiddenTooLate(h)
    ensures Forbidden(h) ==> ForbiddenByAnyLine(h)
  {
    var i := FirstIndex(h, "cache-control");
    if i < |h| {
      assert FirstLine(h, i) && (Forbidden(h) <==> ForbidsAt(h, i));
    }
    if ForbiddenTooLate(h) {
      var i', j :| 0 <= i' < j < |h| && FirstLine(h, i') && !ForbidsAt(h, i') && ForbidsAt(h, j);
      LookupFirst(h, "cache-control", i');
      assert ForbidsAt(h, j);
    }
  }

  /** With one Cache-Control line at most, the code honours every line. */
  lemma OneLineIsEnough(h: Headers)
    requires forall i, j | 0 <= i < j < |h| :: h[i].0 == "cache-control" ==> h[j].0 != "cache-control"
    ensures Forbidden(h) <==> ForbiddenByAnyLine(h)
  {
    OverlookedIffTooLate(h);
  }

  /** Everything but Cache-Control lets the response be stored. */
  ghost predicate OtherwiseStored(isGet: bool, h: Headers, status: nat, bodyLen: nat, rules: seq<Rule>) {
    && isGet && Lookup(h, "set-cookie").None? && "*" !in VaryList(h)
    && bodyLen <= MAX_ENTRY_BYTES && LastRule(rules, status).Some?
  }

  /** A response that some Cache-Control line forbids to store is stored exactly when its first
      such line does not forbid it, a later one does, and the other five tests pass. */
  lemma StoredThoughForbiddenIff(isGet: bool, h: Headers, status: nat, bodyLen: nat, rules: seq<Rule>)
    ensures ForbiddenByAnyLine(h) && Decide(isGet, h, status, bodyLen, rules).Store?
       <==> ForbiddenTooLate(h) && OtherwiseStored(isGet, h, status, bodyLen, rules)
  {
    OverlookedIffTooLate(h);
  }

  /** `public` followed by `no-store`, wherever the two lines stand, is such a response. */
  lemma PublicThenNoStore(isGet: bool, h: Headers, status: nat, bodyLen: nat, rules: seq<Rule>, i: nat, j: nat)
    requires i < j < |h| && FirstLine(h, i) && h[i].1 == "public" && h[j] == ("cache-control", "no-store")
    ensures ForbiddenByAnyLine(h)
    ensures Decide(isGet, h, status, bodyLen, rules).Store? <==> OtherwiseStored(isGet, h, status, bodyLen, rules)
  {
    PublicAllows();
    NoStoreForbids();
    assert !ForbidsAt(h, i) && ForbidsAt(h, j);
    StoredThoughForbiddenIff(isGet, h, status, bodyLen, rules);
  }

  /** A word of lower-case letters, dashes and equals signs. */
  predicate Plain(s: string) {
    s != "" && forall i | 0 <= i < |s| :: 'a' <= s[i] <= 'z' || s[i] == '-' || s[i] == '='
  }

  /** Such a word is a directive of its own. */
  lemma PlainDirective(s: string)
    requires Plain(s)
    ensures Visible(s) && Split(Lower(s)) == [s] && (ForbidsValue(s) <==> ForbidsToken(s)) && Trim(s) == s
  {
    assert Lower(s) == s;
    NoComma(s);
    assert TrimStart(s) == s && TrimEnd(s) == s;
    assert s in [s];
  }

  lemma NoStoreForbids()
    ensures ForbidsValue("no-store")
  {
    PlainDirective("no-store");
  }

  lemma PublicAllows()
    ensures !ForbidsValue("public")
  {
    PlainDirective("public");
  }

  lemma {:induction false} NoComma(s: string)
    requires ',' !in s
    ensures Split(s) == [s]
  {
    if s != "" {
      NoComma(s[1..]);
      assert s == [s[0]] + s[1..];
    }
  }

  /** Names in a Vary list are in lower case, without blanks at their ends, and not empty. */
  lemma {:induction false} NamesAreLower(parts: seq<string>, i: nat)
    requires i < |Names(parts)|
    ensures var n := Names(parts)[i];
            n != "" && forall k | 0 <= k < |n| :: !('A' <= n[k] <= 'Z')
  {
    var t := Lower(Trim(parts[0]));
    if t == "" {
      assert Names(parts) == [] + Names(parts[1..]);
      NamesAreLower(parts[1..], i);
    } else if i > 0 {
      assert Names(parts)[1..] == Names(parts[1..]);
      NamesAreLower(parts[1..], i - 1);
    }
  }

  // ----- Comma-separated lists, spelled out -----

  /** A word of a list with the blanks around it. */
  datatype Item = Item(lead: string, word: string, trail: string)
  {
    ghost function Text(): string { lead + word + trail }

    ghost predicate Legal() { Plain(word) && Blanks(lead) && Blanks(trail) }
  }

  ghost predicate Blanks(s: string) {
    forall i | 0 <= i < |s| :: s[i] == ' ' || s[i] == '\t'
  }

  /** Items with a comma between them. */
  ghost function List(items: seq<Item>): string
    requires items != []
  {
    if |items| == 1 then items[0].Text() else items[0].Text() + "," + List(items[1..])
  }

  ghost predicate Legal(items: seq<Item>) {
    items != [] && forall i | 0 <= i < |items| :: items[i].Legal()
  }

  ghost predicate Lists(items: seq<Item>, word: string) {
    exists i | 0 <= i < |items| :: items[i].word == word
  }

  lemma {:induction false} SplitAt(a: string, rest: string)
    requires ',' !in a
    ensures Split(a + "," + rest) == [a] + Split(rest)
  {
    var s := a + "," + rest;
    if a == "" {
      assert s == [','] + rest;
    } else {
      SplitAt(a[1..], rest);
      assert s[1..] == a[1..] + "," + rest;
      assert a == [a[0]] + a[1..];
    }
  }

  lemma {:induction false} TrimLead(lead: string, s: string)
    requires Blanks(lead) && s != "" && !Blank(s[0])
    ensures TrimStart(lead + s) == s
  {
    if lead == "" {
      assert lead + s == s;
    } else {
      TrimLead(lead[1..], s);
      assert (lead + s)[1..] == lead[1..] + s;
    }
  }

  lemma {:induction false} TrimTrail(s: string, trail: string)
    requires Blanks(trail) && s != "" && !Blank(s[|s| - 1])
    ensures TrimEnd(s + trail) == s
  {
    var n := |trail|;
    if n == 0 {
      assert s + trail == s;
    } else {
      TrimTrail(s, trail[..n - 1]);
      assert (s + trail)[..|s| + n - 1] == s + trail[..n - 1];
    }
  }

  lemma TrimItem(item: Item)
    requires item.Legal()
    ensures Trim(item.Text()) == item.word
  {
    var w := item.word;
    assert item.Text() == item.lead + (w + item.trail);
    TrimLead(item.lead, w + item.trail);
    TrimTrail(w, item.trail);
  }

  lemma NoCommaInItem(item: Item)
    requires item.Legal()
    ensures ',' !in item.Text() && Visible(item.Text()) && Lower(item.Text()) == item.Text()
  {
    var t := item.Text();
    forall i | 0 <= i < |t| ensures t[i] == ' ' || t[i] == '\t' || 'a' <= t[i] <= 'z' || t[i] == '-' || t[i] == '=' {
    }
    assert forall c | c in t :: c != ',' && (c == '\t' || ' ' <= c <= '~');
  }

  /** A list comes apart into its words. */
  lemma {:induction false} SplitList(items: seq<Item>)
    requires Legal(items)
    ensures var parts := Split(List(items));
            |parts| == |items| && forall i | 0 <= i < |items| :: Trim(parts[i]) == items[i].word
  {
    TrimItem(items[0]);
    NoCommaInItem(items[0]);
    if |items| == 1 {
      NoComma(items[0].Text());
    } else {
      SplitList(items[1..]);
      SplitAt(items[0].Text(), List(items[1..]));
      PartsShift(items, Split(List(items)), Split(List(items[1..])));
    }
  }

  lemma PartsShift(items: seq<Item>, parts: seq<string>, rest: seq<string>)
    requires |items| > 1 && parts == [items[0].Text()] + rest && |rest| == |items| - 1
    requires Trim(items[0].Text()) == items[0].word
    requires forall i | 0 <= i < |rest| :: Trim(rest[i]) == items[1..][i].word
    ensures |parts| == |items| && forall i | 0 <= i < |items| :: Trim(parts[i]) == items[i].word
  {
    forall i | 0 <= i < |items| ensures Trim(parts[i]) == items[i].word {
      assert i > 0 ==> parts[i] == rest[i - 1] && items[1..][i - 1] == items[i];
    }
  }

  lemma {:induction false} ListVisible(items: seq<Item>)
    requires Legal(items)
    ensures Visible(List(items)) && Lower(List(items)) == List(items)
  {
    NoCommaInItem(items[0]);
    if |items| > 1 {
      ListVisible(items[1..]);
      LowerConcat(items[0].Text() + ",", List(items[1..]));
      LowerConcat(items[0].Text(), ",");
      assert Lower(",") == ",";
    }
  }

  lemma LowerConcat(a: string, b: string)
    ensures Lower(a + b) == Lower(a) + Lower(b)
  {
  }

  /** A readable Cache-Control line, in capitals or not, forbids caching exactly when `no-store`,
      `private` or `no-cache` is among its directives. */
  lemma ListForbids(v: string, items: seq<Item>)
    requires Legal(items) && Visible(v) && Lower(v) == List(items)
    ensures ForbidsValue(v) <==> Lists(items, "no-store") || Lists(items, "private") || Lists(items, "no-cache")
  {
    SplitList(items);
    var parts := Split(Lower(v));
    forall i | 0 <= i < |items|
      ensures ForbidsToken(parts[i]) <==>
              items[i].word == "no-store" || items[i].word == "private" || items[i].word == "no-cache"
    {
      assert Trim(parts[i]) == items[i].word;
    }
    if ForbidsValue(v) {
      var t :| t in parts && ForbidsToken(t);
      var i :| 0 <= i < |parts| && parts[i] == t;
    }
    if i :| 0 <= i < |items| && (items[i].word == "no-store" || items[i].word == "private" || items[i].word == "no-cache") {
      assert parts[i] in parts;
    }
  }

  /** A line with a character that is neither tab nor printable ASCII is not looked at. */
  lemma UnreadableAllows(v: string, i: nat)
    requires i < |v| && v[i] as int != 9 && !(32 <= v[i] as int <= 126)
    ensures !ForbidsValue(v) && VaryList([("vary", v)]) == []
  {
    VisibleMeaning(v);
    var h := [("vary", v)];
    assert h[1..] == [] && VaryList([]) == [];
    assert VaryList(h) == [] + [];
  }

  ghost function WordsOf(items: seq<Item>): seq<string> {
    seq(|items|, i requires 0 <= i < |items| => items[i].word)
  }

  /** A Vary line lists exactly its names, in order; a second line adds its own behind them. */
  lemma ListVaries(items: seq<Item>, others: Headers)
    requires Legal(items)
    ensures VaryList([("vary", List(items))] + others) == WordsOf(items) + VaryList(others)
  {
    ListVisible(items);
    SplitList(items);
    NamesOf(Split(List(items)), WordsOf(items));
    var h := [("vary", List(items))] + others;
    assert h[1..] == others;
  }

  lemma PlainLower(t: string)
    requires Plain(t)
    ensures Lower(t) == t
  {
  }

  lemma {:induction false} NamesOf(parts: seq<string>, ts: seq<string>)
    requires |parts| == |ts| && forall i | 0 <= i < |ts| :: Plain(ts[i]) && Trim(parts[i]) == ts[i]
    ensures Names(parts) == ts
  {
    if ts != [] {
      PlainLower(ts[0]);
      NamesOf(parts[1..], ts[1..]);
      assert ts == [ts[0]] + ts[1..];
    }
  }

  /** The lifetime of a status is that of the last rule that names it or names none. */
  lemma {:induction false} LastRuleMeaning(rules: seq<Rule>, status: nat, i: nat)
    requires i < |rules| && (rules[i].codes == [] || status in rules[i].codes)
    requires forall j | i < j < |rules| :: rules[j].codes != [] && status !in rules[j].codes
    ensures LastRule(rules, status) == Some(rules[i].ttl)
  {
    if i > 0 {
      LastRuleMeaning(rules[1..], status, i - 1);
    } else {
      NoRuleMeaning(rules[1..], status);
    }
  }

  lemma {:induction false} NoRuleMeaning(rules: seq<Rule>, status: nat)
    ensures LastRule(rules, status).None? <==> forall j | 0 <= j < |rules| :: rules[j].codes != [] && status !in rules[j].codes
  {
    if rules != [] {
      NoRuleMeaning(rules[1..], status);
      assert forall j | 1 <= j < |rules| :: rules[j] == rules[1..][j - 1];
      if LastRule(rules, status).None? {
        forall j | 0 <= j < |rules| ensures rules[j].codes != [] && status !in rules[j].codes {
          assert j > 0 ==> rules[1..][j - 1] == rules[j];
        }
      }
    }
  }

  /** When a response is stored: for a GET, without any Set-Cookie line, without `*` in its Vary
      list, unless its first Cache-Control line forbids it, up to 4 MiB, and if some rule names its
      status or names none. */
  lemma StoredMeaning(isGet: bool, h: Headers, status: nat, bodyLen: nat, rules: seq<Rule>)
    ensures Decide(isGet, h, status, bodyLen, rules).Store? <==>
            && isGet && (forall i | 0 <= i < |h| :: h[i].0 != "set-cookie") && "*" !in VaryList(h)
            && (forall i | 0 <= i < |h| && FirstLine(h, i) :: !ForbidsValue(h[i].1))
            && bodyLen <= 4_194_304
            && exists i | 0 <= i < |rules| :: rules[i].codes == [] || status in rules[i].codes
  {
    LookupMissing(h, "set-cookie");
    NoRuleMeaning(rules, status);
    LookupMissing(h, "cache-control");
    forall i | 0 <= i < |h| && FirstLine(h, i) ensures Forbidden(h) <==> ForbidsValue(h[i].1) {
      LookupFirst(h, "cache-control", i);
    }
    var k := FirstIndex(h, "cache-control");
    assert k < |h| ==> FirstLine(h, k);
  }

  /** The reason why a response is not stored is the first test that it fails. */
  lemma ReasonMeaning(isGet: bool, h: Headers, status: nat, bodyLen: nat, rules: seq<Rule>)
    ensures var d := Decide(isGet, h, status, bodyLen, rules);
            var cookie := exists i | 0 <= i < |h| :: h[i].0 == "set-cookie";
            && (d == Bypass(NotGet) <==> !isGet)
            && (d == Bypass(SetCookie) <==> isGet && cookie)
            && (d == Bypass(VaryStar) <==> isGet && !cookie && "*" in VaryList(h))
            && (d == Bypass(CacheControl) <==> isGet && !cookie && "*" !in VaryList(h) && Forbidden(h))
            && (d == Bypass(TooLarge) <==> isGet && !cookie && "*" !in VaryList(h) && !Forbidden(h) && bodyLen > 4_194_304)
  {
    LookupMissing(h, "set-cookie");
  }

  // ----- From response to cache entry -----

  ghost function EntryFor(req: Headers, resp: Response, expiresAt: nat): Entry {
    var vary := VaryList(resp.headers);
    Entry(resp.status, resp.headers, resp.body, expiresAt, vary, Signature(req, vary))
  }

  /** `maybe_cache` for a location with a cache; `collected` says whether the upstream body could
      be read to its end. */
  method MaybeCache(store: CacheStore, key: string, isGet: bool, req: Headers,
                    resp: Response, collected: bool, rules: seq<Rule>, now: nat)
    returns (out: Response, tag: Label, ghost victims: seq<Victim>, ghost mid: State)
    requires store.Valid()
    modifies store
    ensures store.Valid()
    ensures out == if isGet && !collected then resp.(body := "") else resp
    ensures if isGet && !collected then tag == Unmarked && store.Snapshot() == old(store.Snapshot())
            else match Decide(isGet, resp.headers, resp.status, |resp.body|, rules)
              case Bypass(_) => tag == Bypassed && store.Snapshot() == old(store.Snapshot())
              case Store(ttl) =>
                && tag == Miss
                && var names := VaryList(resp.headers);
                   var entry := Entry(resp.status, resp.headers, resp.body, now + ttl, names, Signature(req, names));
                   Puts(old(store.Snapshot()), key, entry, store.maxBytes, victims, mid, store.Snapshot())
  {
    victims, mid := [], store.Snapshot();
    if !isGet {
      return resp, Bypassed, victims, mid;
    }
    if !collected {
      return resp.(body := ""), Unmarked, victims, mid;
    }
    out := resp;
    var decision := DecideCaching(isGet, resp.headers, resp.status, |resp.body|, rules);
    match decision
    case Bypass(_) =>
      tag := Bypassed;
    case Store(ttl) =>
      var vary := ParseVary(resp.headers);
      var signature := BuildSignature(req, vary);
      var entry := Entry(resp.status, resp.headers, resp.body, now + ttl, vary, signature);
      victims, mid := store.Put(key, entry);
      tag := Miss;
  }

  // ----- The names in a Vary list -----

  lemma {:induction false} SplitChars(s: string, i: nat)
    requires i < |Split(s)|
    ensures forall c | c in Split(s)[i] :: c in s
  {
    if s != "" {
      var rest := Split(s[1..]);
      if s[0] == ',' {
        if i > 0 { SplitChars(s[1..], i - 1); }
      } else {
        SplitChars(s[1..], i);
      }
    }
  }

  lemma {:induction false} TrimStartChars(s: string)
    ensures forall c | c in TrimStart(s) :: c in s
  {
    if s != "" && Blank(s[0]) {
      TrimStartChars(s[1..]);
    }
  }

  lemma {:induction false} TrimEndChars(s: string)
    ensures forall c | c in TrimEnd(s) :: c in s
  {
    if s != "" && Blank(s[|s| - 1]) {
      TrimEndChars(s[..|s| - 1]);
    }
  }

  lemma TrimLowerNul(s: string)
    requires NUL !in s
    ensures NUL !in Lower(Trim(s))
  {
    TrimStartChars(s);
    TrimEndChars(TrimStart(s));
    var t := Trim(s);
    forall i | 0 <= i < |t| ensures Lower(t)[i] != NUL {
      assert t[i] in t;
    }
  }

  lemma {:induction false} NamesLackNul(parts: seq<string>)
    requires forall i | 0 <= i < |parts| :: NUL !in parts[i]
    ensures Lacks(NUL, Names(parts))
  {
    if parts != [] {
      TrimLowerNul(parts[0]);
      NamesLackNul(parts[1..]);
    }
  }

  /** No name in a Vary list contains NUL, since no readable header value does. */
  lemma {:induction false} VaryListLacksNul(h: Headers)
    ensures Lacks(NUL, VaryList(h))
  {
    if h != [] {
      VaryListLacksNul(h[1..]);
      if h[0].0 == "vary" && Visible(h[0].1) {
        var parts := Split(h[0].1);
        forall i | 0 <= i < |parts| ensures NUL !in parts[i] {
          SplitChars(h[0].1, i);
        }
        NamesLackNul(parts);
      }
    }
  }

  /** A response whose only header is a Vary line with one plain name. */
  lemma VaryLine(name: string)
    requires Plain(name)
    ensures var h := [("vary", name)];
            && VaryList(h) == [name] && "*" !in VaryList(h)
            && Lookup(h, "set-cookie") == None && Lookup(h, "cache-control") == None
  {
    var h := [("vary", name)];
    PlainDirective(name);
    NoComma(name);
    assert Lower(name) == name;
    assert Names([name]) == [name] by { assert [name][1..] == []; }
    assert h[1..] == [] && VaryList([]) == [];
    assert [name] + [] == [name];
    assert |"vary"| != |"set-cookie"| && |"vary"| != |"cache-control"|;
    assert name[0] != '*';
  }
}
