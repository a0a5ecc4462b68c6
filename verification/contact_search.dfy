/**
  The search box of the contact list:
  `contacts.filter(c => (c.name || c.phone || '').toLowerCase().includes(query.toLowerCase()))`.
 */
module ContactSearch {
  import opened Optional
  import opened Sequences
  import opened Text

  /** A contact as the `/contacts` endpoint returns it; `name` and `phone` may be missing. */
  datatype Contact = Contact(userId: string, name: Option<string>, phone: Option<string>)

  /** JavaScript truthiness of a possibly missing string. */
  predicate Truthy(s: Option<string>) {
    s.Some? && s.value != []
  }

  /** `c.name || c.phone || ''`: the name when non-empty, else the phone when
      non-empty, else the empty string. */
  function DisplayKey(c: Contact): string {
    if Truthy(c.name) then c.name.value
    else if Truthy(c.phone) then c.phone.value
    else []
  }

  /** The contact's lowercased display key contains the lowercased query. */
  predicate Matches(c: Contact, query: string) {
    Contains(Lower(DisplayKey(c)), Lower(query))
  }

  /** The contacts shown for `query`: a contact is kept exactly when it matches. */
  function Filtered(contacts: seq<Contact>, query: string): (r: seq<Contact>)
    ensures |r| <= |contacts|
  {
    if |contacts| == 0 then []
    else (if Matches(contacts[0], query) then [contacts[0]] else []) + Filtered(contacts[1..], query)
  }

  /** A contact is shown exactly when it is in the list and matches the query. */
  lemma {:induction false} FilteredMembers(contacts: seq<Contact>, query: string)
    ensures forall c :: c in Filtered(contacts, query) <==> c in contacts && Matches(c, query)
    decreases |contacts|
  {
    if |contacts| > 0 {
      FilteredMembers(contacts[1..], query);
      assert contacts == [contacts[0]] + contacts[1..];
    }
  }

  /** The contact in front is kept or dropped on its own, before the rest is filtered. */
  lemma FilteredCons(c: Contact, rest: seq<Contact>, query: string)
    ensures Filtered([c] + rest, query) == (if Matches(c, query) then [c] else []) + Filtered(rest, query)
  {
    assert ([c] + rest)[0] == c && ([c] + rest)[1..] == rest;
  }

  /** One step of `FilteredAppend`: a contact in front of `a` is kept or dropped the
      same way before `a + b` as before `a`. */
  lemma FilteredAppendStep(c: Contact, a: seq<Contact>, b: seq<Contact>, query: string)
    requires Filtered(a + b, query) == Filtered(a, query) + Filtered(b, query)
    ensures Filtered([c] + a + b, query) == Filtered([c] + a, query) + Filtered(b, query)
  {
    assert [c] + a + b == [c] + (a + b);
    FilteredCons(c, a + b, query);
    FilteredCons(c, a, query);
    AppendAssoc(if Matches(c, query) then [c] else [], Filtered(a, query), Filtered(b, query));
  }

  /** Filtering keeps every occurrence and the list order: it distributes over
      concatenation. */
  lemma {:induction false} FilteredAppend(a: seq<Contact>, b: seq<Contact>, query: string)
    ensures Filtered(a + b, query) == Filtered(a, query) + Filtered(b, query)
    decreases |a|
  {
    if |a| == 0 {
      assert a + b == b;
    } else {
      FilteredAppend(a[1..], b, query);
      FilteredAppendStep(a[0], a[1..], b, query);
      assert a == [a[0]] + a[1..];
    }
  }

  /** A single contact is kept exactly when it matches. */
  lemma FilteredOne(c: Contact, query: string)
    ensures Filtered([c], query) == if Matches(c, query) then [c] else []
  {
    assert [c][1..] == [];
  }

  /** `xs` is `ys` with some elements left out, the rest in their original order. */
  predicate IsSubsequence(xs: seq<Contact>, ys: seq<Contact>)
    decreases |ys|
  {
    |xs| == 0
    || (|ys| > 0
        && ((xs[0] == ys[0] && IsSubsequence(xs[1..], ys[1..])) || IsSubsequence(xs, ys[1..])))
  }

  lemma SubsequenceOfCons(xs: seq<Contact>, y: Contact, ys: seq<Contact>)
    requires IsSubsequence(xs, ys)
    ensures IsSubsequence(xs, [y] + ys)
  {
    assert ([y] + ys)[1..] == ys;
  }

  lemma SubsequenceCons(x: Contact, xs: seq<Contact>, ys: seq<Contact>)
    requires IsSubsequence(xs, ys)
    ensures IsSubsequence([x] + xs, [x] + ys)
  {
    assert ([x] + xs)[1..] == xs;
    assert ([x] + ys)[1..] == ys;
  }

  /** The filtered list keeps the contacts' order. */
  lemma {:induction false} FilteredIsSubsequence(contacts: seq<Contact>, query: string)
    ensures IsSubsequence(Filtered(contacts, query), contacts)
    decreases |contacts|
  {
    if |contacts| > 0 {
      var c, rest := contacts[0], contacts[1..];
      assert contacts == [c] + rest;
      FilteredIsSubsequence(rest, query);
      if Matches(c, query) {
        assert Filtered(contacts, query) == [c] + Filtered(rest, query);
        SubsequenceCons(c, Filtered(rest, query), rest);
      } else {
        assert Filtered(contacts, query) == Filtered(rest, query);
        SubsequenceOfCons(Filtered(rest, query), c, rest);
      }
    }
  }

  /** An empty query keeps every contact. */
  lemma {:induction false} EmptyQueryKeepsAll(contacts: seq<Contact>)
    ensures Filtered(contacts, []) == contacts
    decreases |contacts|
  {
    if |contacts| > 0 {
      EmptyQueryKeepsAll(contacts[1..]);
      assert Matches(contacts[0], []);
      assert Filtered(contacts, []) == [contacts[0]] + Filtered(contacts[1..], []);
      assert contacts == [contacts[0]] + contacts[1..];
    }
  }

  /** Queries that lowercase alike select the same contacts. */
  lemma {:induction false} SameLowercaseSameResult(contacts: seq<Contact>, q1: string, q2: string)
    requires Lower(q1) == Lower(q2)
    ensures Filtered(contacts, q1) == Filtered(contacts, q2)
    decreases |contacts|
  {
    if |contacts| > 0 {
      SameLowercaseSameResult(contacts[1..], q1, q2);
    }
  }

  /** The letter case of the query does not matter. */
  lemma QueryCaseIrrelevant(contacts: seq<Contact>, query: string)
    ensures Filtered(contacts, Lower(query)) == Filtered(contacts, query)
  {
    LowerIdempotent(query);
    SameLowercaseSameResult(contacts, Lower(query), query);
  }

  /** A contact matching a longer query matches every prefix of it. */
  lemma MatchesPrefix(c: Contact, query: string, more: string)
    requires Matches(c, query + more)
    ensures Matches(c, query)
  {
    var q := query + more;
    LowerPrefix(q, |query|);
    assert q[..|query|] == query;
    ContainsPrefix(Lower(DisplayKey(c)), Lower(q), |query|);
  }

  /** Typing more characters never brings a contact back: the result for the longer
      query is a subsequence of the result for the shorter one. */
  lemma {:induction false} ExtendingQueryNarrows(contacts: seq<Contact>, query: string, more: string)
    ensures IsSubsequence(Filtered(contacts, query + more), Filtered(contacts, query))
    decreases |contacts|
  {
    if |contacts| > 0 {
      var c, rest := contacts[0], contacts[1..];
      ExtendingQueryNarrows(rest, query, more);
      var long, short := Filtered(rest, query + more), Filtered(rest, query);
      if Matches(c, query + more) {
        MatchesPrefix(c, query, more);
        assert Filtered(contacts, query + more) == [c] + long;
        assert Filtered(contacts, query) == [c] + short;
        SubsequenceCons(c, long, short);
      } else if Matches(c, query) {
        assert Filtered(contacts, query + more) == long;
        assert Filtered(contacts, query) == [c] + short;
        SubsequenceOfCons(long, c, short);
      } else {
        assert Filtered(contacts, query + more) == long;
        assert Filtered(contacts, query) == short;
      }
    }
  }

  /** Filtering the filtered list again changes nothing. */
  lemma {:induction false} FilterIdempotent(contacts: seq<Contact>, query: string)
    ensures Filtered(Filtered(contacts, query), query) == Filtered(contacts, query)
    decreases |contacts|
  {
    if |contacts| > 0 {
      var c, rest := contacts[0], contacts[1..];
      FilterIdempotent(rest, query);
      var once := Filtered(rest, query);
      if Matches(c, query) {
        var f := [c] + once;
        assert Filtered(contacts, query) == f;
        assert f[0] == c && f[1..] == once;
        assert Filtered(f, query) == [c] + Filtered(once, query);
      } else {
        assert Filtered(contacts, query) == once;
      }
    }
  }
}
