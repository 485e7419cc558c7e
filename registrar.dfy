/** The server action that records a waitlist signup (lib/actions.ts): a defensive email
    check, an insert-if-absent into a table whose `email` column is unique, a count, and a
    best-effort notification. The SQL store is abstracted as a sequence of entries. */
module Registrar {
  import opened Options
  import Decimal

  const InvalidEmailMessage := "Please provide a valid email address"
  const StorageFailureMessage := "Failed to join waitlist. Please try again later."
  const NewHeadline := "New waitlist entry:"
  const RepeatHeadline := "Repeat signup attempt:"

  /** One row of the `waitlist` table; `kind` is the `type` column. */
  datatype Entry = Entry(email: string, kind: string)

  /** What the action returns to its caller. */
  datatype Response = Success(isNew: bool) | Failure(message: string)

  /** The SQL statements the action issues, in order. */
  datatype Query = CreateTable | SelectByEmail | InsertEntry | CountEntries

  /** The environment of one call: the configured webhook URL ("" when unset), which
      SQL statement, if any, throws, and whether the webhook request fails. */
  datatype Env = Env(webhookUrl: string, failingQuery: Option<Query>, webhookFails: bool)

  /** The webhook request: its URL and the `text` field of its JSON body. */
  datatype Post = Post(url: string, text: string)

  /** Everything one call produces: the response, the table afterwards, the request posted. */
  datatype Outcome = Outcome(response: Response, table: seq<Entry>, post: Option<Post>)

  // ---------------------------------------------------------------------------------
  // The table

  predicate Registered(table: seq<Entry>, email: string) {
    exists i | 0 <= i < |table| :: table[i].email == email
  }

  /** The `UNIQUE` constraint on the `email` column. */
  ghost predicate UniqueEmails(table: seq<Entry>) {
    forall i, j | 0 <= i < j < |table| :: table[i].email != table[j].email
  }

  /** `SELECT * FROM waitlist WHERE email = …`: the rows with exactly that email, in order. */
  function Select(table: seq<Entry>, email: string): (rows: seq<Entry>)
    ensures |rows| == 0 <==> !Registered(table, email)
    ensures |rows| <= |table|
    ensures forall k | 0 <= k < |rows| :: rows[k].email == email && rows[k] in table
  {
    if table == [] then []
    else
      var rest := Select(table[1..], email);
      assert forall i | 0 <= i < |table| - 1 :: table[1..][i] == table[i + 1];
      if table[0].email == email then [table[0]] + rest else rest
  }

  /** With unique emails a lookup finds at most one row. */
  lemma {:induction false} SelectAtMostOne(table: seq<Entry>, email: string)
    requires UniqueEmails(table)
    ensures |Select(table, email)| <= 1
  {
    if table != [] {
      SelectAtMostOne(table[1..], email);
      if table[0].email == email {
        assert !Registered(table[1..], email) by {
          forall i | 0 <= i < |table| - 1 ensures table[1..][i].email != email {
            assert table[1..][i] == table[i + 1];
          }
        }
      }
    }
  }

  /** The set of emails in the table. */
  function Emails(table: seq<Entry>): (emails: set<string>)
    ensures forall e :: e in emails <==> Registered(table, e)
  {
    if table == [] then {}
    else
      var last := |table| - 1;
      assert forall e :: Registered(table, e) <==> Registered(table[..last], e) || table[last].email == e by {
        forall e ensures Registered(table, e) <==> Registered(table[..last], e) || table[last].email == e {
          if Registered(table, e) {
            var i :| 0 <= i < |table| && table[i].email == e;
            if i < last { assert table[..last][i] == table[i]; }
          }
          if Registered(table[..last], e) {
            var i :| 0 <= i < last && table[..last][i].email == e;
            assert table[i] == table[..last][i];
          }
        }
      }
      Emails(table[..last]) + {table[last].email}
  }

  /** With unique emails the row count is the number of distinct emails registered. */
  lemma {:induction false} CountIsDistinctEmails(table: seq<Entry>)
    requires UniqueEmails(table)
    ensures |Emails(table)| == |table|
  {
    if table != [] {
      var last := |table| - 1;
      CountIsDistinctEmails(table[..last]);
      assert !Registered(table[..last], table[last].email);
    }
  }

  /** Appending a row whose email is absent keeps the emails unique. */
  lemma AppendFreshKeepsUnique(table: seq<Entry>, e: Entry)
    requires UniqueEmails(table) && !Registered(table, e.email)
    ensures UniqueEmails(table + [e])
  {
    var t := table + [e];
    forall i, j | 0 <= i < j < |t| ensures t[i].email != t[j].email {
      if j == |table| { assert t[i] == table[i]; }
    }
  }

  /** The waitlist table, updated in place by the action. */
  class WaitlistTable {
    var entries: seq<Entry>

    ghost predicate Valid()
      reads this
    {
      UniqueEmails(entries)
    }

    /** `CREATE TABLE IF NOT EXISTS waitlist (…)` on a database that has none. */
    constructor ()
      ensures Valid() && entries == []
    {
      entries := [];
    }

    /** `INSERT INTO waitlist (email, type) VALUES (…)`: the unique constraint refuses a
        row whose email is already present. */
    method Insert(e: Entry) returns (ok: bool)
      requires Valid()
      modifies this
      ensures Valid()
      ensures ok == !Registered(old(entries), e.email)
      ensures entries == if ok then old(entries) + [e] else old(entries)
    {
      ok := |Select(entries, e.email)| == 0;
      if ok {
        AppendFreshKeepsUnique(entries, e);
        entries := entries + [e];
      }
    }
  }

  // ---------------------------------------------------------------------------------
  // The notification

  predicate StartsWith(s: string, prefix: string) {
    |prefix| <= |s| && s[..|prefix|] == prefix
  }

  predicate AppearsAt(s: string, part: string, i: nat) {
    i + |part| <= |s| && s[i..i + |part|] == part
  }

  predicate Contains(s: string, part: string) {
    exists i | 0 <= i <= |s| :: AppearsAt(s, part, i)
  }

  lemma FourParts(a: string, b: string, c: string, d: string)
    ensures StartsWith(a + b + c + d, a)
    ensures AppearsAt(a + b + c + d, b, |a|)
    ensures AppearsAt(a + b + c + d, c, |a| + |b|)
    ensures AppearsAt(a + b + c + d, d, |a| + |b| + |c|)
  {
    var s := a + b + c + d;
    assert s[..|a|] == a;
    assert s[|a|..|a| + |b|] == b;
    assert s[|a| + |b|..|a| + |b| + |c|] == c;
    assert s[|a| + |b| + |c|..] == d;
  }

  const EmailLabel := "\nEmail: "
  const TypeLabel := "\nType: "
  const CountLabel := "\nTotal waitlist count: "

  /** The Slack message for one signup: a headline saying whether the signup is new,
      then the email, the type and the running total, one per line. */
  function NotificationText(email: string, kind: string, isNew: bool, count: nat): (text: string)
    ensures StartsWith(text, NewHeadline) <==> isNew
    ensures StartsWith(text, RepeatHeadline) <==> !isNew
    ensures Contains(text, EmailLabel + email)
    ensures Contains(text, TypeLabel + kind)
    ensures Contains(text, CountLabel + Decimal.Show(count) + ".")
    ensures text[|text| - 1] == '.'
  {
    var headline := if isNew then NewHeadline else RepeatHeadline;
    var text := headline + (EmailLabel + email) + (TypeLabel + kind) + (CountLabel + Decimal.Show(count) + ".");
    FourParts(headline, EmailLabel + email, TypeLabel + kind, CountLabel + Decimal.Show(count) + ".");
    assert text[0] == headline[0];
    text
  }

  /** `sendSlackNotification`: no request when the webhook URL is unset or empty. */
  function Notify(webhookUrl: string, email: string, kind: string, isNew: bool, count: nat): (post: Option<Post>)
    ensures post.None? <==> webhookUrl == ""
    ensures post.Some? ==> post.value == Post(webhookUrl, NotificationText(email, kind, isNew, count))
  {
    if webhookUrl == "" then None else Some(Post(webhookUrl, NotificationText(email, kind, isNew, count)))
  }

  // ---------------------------------------------------------------------------------
  // The action

  predicate Fails(env: Env, q: Query) {
    env.failingQuery == Some(q)
  }

  /** No SQL statement that the call actually issues throws: a failing INSERT matters only
      when the email is absent, since for a repeat the INSERT is never issued. */
  predicate StatementsSucceed(table: seq<Entry>, email: string, env: Env) {
    !Fails(env, CreateTable) && !Fails(env, SelectByEmail) && !Fails(env, CountEntries)
    && !(Fails(env, InsertEntry) && !Registered(table, email))
  }

  /** The server-side check: `!email || !email.includes("@")` rejects. */
  predicate ServerAccepts(email: string) {
    email != "" && '@' in email
  }

  /** What one call of the action does to a table, as a function of the table before it. */
  function Register(table: seq<Entry>, email: string, kind: string, env: Env): (o: Outcome)
    ensures !ServerAccepts(email) ==> o == Outcome(Failure(InvalidEmailMessage), table, None)
    ensures ServerAccepts(email) && StatementsSucceed(table, email, env) ==>
      o.response == Success(!Registered(table, email))
      && o.post == Notify(env.webhookUrl, email, kind, !Registered(table, email), |o.table|)
    ensures o.response == Success(true) ==> o.table == table + [Entry(email, kind)]
    ensures o.response == Success(false) ==> o.table == table
    ensures o.response.Failure? ==>
      (o.post == None && o.response.message in {InvalidEmailMessage, StorageFailureMessage})
    ensures ServerAccepts(email)
      && (Fails(env, CreateTable) || Fails(env, SelectByEmail) || Fails(env, CountEntries)
          || (Fails(env, InsertEntry) && !Registered(table, email)))
      ==> o.response == Failure(StorageFailureMessage) && o.post == None
    ensures ServerAccepts(email) && o.response.Failure? ==> o.response.message == StorageFailureMessage
    ensures o.table == table || (o.table == table + [Entry(email, kind)] && !Registered(table, email))
    ensures Fails(env, CreateTable) || Fails(env, SelectByEmail) || Fails(env, InsertEntry) ==> o.table == table
  {
    if !ServerAccepts(email) then Outcome(Failure(InvalidEmailMessage), table, None)
    else if Fails(env, CreateTable) || Fails(env, SelectByEmail) then
      Outcome(Failure(StorageFailureMessage), table, None)
    else
      var isNew := |Select(table, email)| == 0;
      if isNew && Fails(env, InsertEntry) then Outcome(Failure(StorageFailureMessage), table, None)
      else
        var after := if isNew then table + [Entry(email, kind)] else table;
        assert isNew || after == table;
        if Fails(env, CountEntries) then Outcome(Failure(StorageFailureMessage), after, None)
        else Outcome(Success(isNew), after, Notify(env.webhookUrl, email, kind, isNew, |after|))
  }

  /** Every call keeps the emails unique. */
  lemma RegisterKeepsUnique(table: seq<Entry>, email: string, kind: string, env: Env)
    requires UniqueEmails(table)
    ensures UniqueEmails(Register(table, email, kind, env).table)
  {
    if Register(table, email, kind, env).table != table {
      AppendFreshKeepsUnique(table, Entry(email, kind));
    }
  }

  /** An email that is in the table after the call is there exactly once. */
  lemma RegisteredOnce(table: seq<Entry>, email: string, kind: string, env: Env)
    requires UniqueEmails(table) && ServerAccepts(email) && StatementsSucceed(table, email, env)
    ensures |Select(Register(table, email, kind, env).table, email)| == 1
  {
    var after := Register(table, email, kind, env).table;
    RegisterKeepsUnique(table, email, kind, env);
    SelectAtMostOne(after, email);
    if after != table {
      assert after[|table|].email == email;
    }
  }

  /** A second signup with the same email, whatever its type, adds nothing: the first call
      reports a new entry exactly when the email was absent, the second reports a repeat,
      and the table holds that email once. */
  lemma RepeatSignupIsIdempotent(table: seq<Entry>, email: string, kind1: string, kind2: string, env: Env)
    requires UniqueEmails(table) && ServerAccepts(email) && StatementsSucceed(table, email, env)
    ensures var first := Register(table, email, kind1, env);
      var second := Register(first.table, email, kind2, env);
      first.response == Success(!Registered(table, email))
      && second.response == Success(false)
      && second.table == first.table
      && |Select(second.table, email)| == 1
  {
    var first := Register(table, email, kind1, env);
    RegisteredOnce(table, email, kind1, env);
    assert Registered(first.table, email);
    RegisterKeepsUnique(table, email, kind1, env);
    RegisteredOnce(first.table, email, kind2, env);
  }

  /** The count in the notification is the number of distinct emails registered before the
      call, plus one exactly when the call added the email. */
  lemma ReportedCountIsDistinctEmails(table: seq<Entry>, email: string, kind: string, env: Env)
    requires UniqueEmails(table) && ServerAccepts(email) && env.failingQuery.None? && env.webhookUrl != ""
    ensures var o := Register(table, email, kind, env);
      var isNew := !(email in Emails(table));
      o.post == Some(Post(env.webhookUrl,
        NotificationText(email, kind, isNew, |Emails(table)| + (if isNew then 1 else 0))))
  {
    CountIsDistinctEmails(table);
  }

  /** A failing COUNT after a successful INSERT reports the generic error although the row
      was added; a retry then sees a repeat. */
  lemma CountFailureAfterInsertKeepsRow(table: seq<Entry>, email: string, kind: string, env: Env)
    requires UniqueEmails(table) && ServerAccepts(email) && !Registered(table, email)
    requires env.failingQuery == Some(CountEntries)
    ensures var o := Register(table, email, kind, env);
      o.response == Failure(StorageFailureMessage)
      && o.table == table + [Entry(email, kind)]
      && Register(o.table, email, kind, env.(failingQuery := None)).response == Success(false)
  {
    var o := Register(table, email, kind, env);
    assert o.table[|table|].email == email;
  }

  /** The outcome of the webhook request never reaches the response. This holds by
      construction: the source swallows a rejected request, so nothing in the model reads
      `webhookFails`; the lemma records that the flag is irrelevant. */
  lemma WebhookFailureIgnored(table: seq<Entry>, email: string, kind: string, env: Env)
    ensures Register(table, email, kind, env) == Register(table, email, kind, env.(webhookFails := !env.webhookFails))
  {
  }

  /** `joinWaitlist`: validate, ensure the table, look the email up, insert it if absent,
      count, notify, respond. Any failing SQL statement ends the call with the generic
      error message; what was already written stays written. */
  method JoinWaitlist(table: WaitlistTable, email: string, kind: string, env: Env)
    returns (r: Response, post: Option<Post>)
    requires table.Valid()
    modifies table
    ensures table.Valid()
    ensures Outcome(r, table.entries, post) == Register(old(table.entries), email, kind, env)
  {
    if email == "" || '@' !in email {
      return Failure(InvalidEmailMessage), None;
    }
    if Fails(env, CreateTable) || Fails(env, SelectByEmail) {
      return Failure(StorageFailureMessage), None;
    }
    var existing := Select(table.entries, email);
    var isNew := |existing| == 0;
    if isNew {
      var inserted := false;
      if !Fails(env, InsertEntry) {
        inserted := table.Insert(Entry(email, kind));
      }
      if !inserted {
        return Failure(StorageFailureMessage), None;
      }
    }
    if Fails(env, CountEntries) {
      return Failure(StorageFailureMessage), None;
    }
    var count := |table.entries|;
    post := Notify(env.webhookUrl, email, kind, isNew, count);
    r := Success(isNew);
  }
}
