/** The card table as the service sees it through CardRepository: a finite map
    from card number to card, looked up by number or by owner, and listed. */
module CardRepository {
  import opened Wrappers
  import opened CardModel

  /** The `cards` table, keyed by card number. The table itself does not
      force numbers to be unique; keying by number assumes that they are. */
  type Store = map<string, Card>

  /** The consistency assumed of the table: each row sits under its own
      number, and no two rows share an id (the id is the primary key). */
  ghost predicate WellFormed(s: Store) {
    && (forall k :: k in s ==> s[k].number == k)
    && (forall a, b :: a in s && b in s && a != b ==> s[a].id != s[b].id)
  }

  /** `findByNumber`: the card with that number, if there is one. */
  function FindByNumber(s: Store, number: string): (r: Option<Card>)
    ensures r.Some? <==> number in s
    ensures r.Some? ==> r.value == s[number]
    ensures WellFormed(s) && r.Some? ==> r.value.number == number
  {
    if number in s then Some(s[number]) else None
  }

  /** The numbers of the cards whose owner is `email`. */
  function OwnedKeys(s: Store, email: string): set<string> {
    set k | k in s && s[k].userEmail == email
  }

  /** `keys` lists every element of `wanted` exactly once. */
  ghost predicate Enumerates(keys: seq<string>, wanted: set<string>) {
    && (forall i, j :: 0 <= i < j < |keys| ==> keys[i] != keys[j])
    && (forall k :: k in keys <==> k in wanted)
  }

  /** Reads the rows whose numbers are in `wanted`, in whatever order the
      table yields them. */
  method Collect(s: Store, wanted: set<string>) returns (keys: seq<string>, cards: seq<Card>)
    requires wanted <= s.Keys
    ensures Enumerates(keys, wanted)
    ensures |keys| == |wanted|
    ensures |cards| == |keys|
    ensures forall i :: 0 <= i < |keys| ==> cards[i] == s[keys[i]]
  {
    var rest := wanted;
    keys, cards := [], [];
    while rest != {}
      invariant rest <= wanted
      invariant forall i, j :: 0 <= i < j < |keys| ==> keys[i] != keys[j]
      invariant forall k :: k in keys <==> k in wanted && k !in rest
      invariant |keys| + |rest| == |wanted|
      invariant |cards| == |keys|
      invariant forall i :: 0 <= i < |keys| ==> cards[i] == s[keys[i]]
      decreases |rest|
    {
      var k :| k in rest;
      keys, cards := keys + [k], cards + [s[k]];
      rest := rest - {k};
    }
  }

  /** `findByUserEmail`: every card whose owner is `email`, each once. */
  method FindByUserEmail(s: Store, email: string) returns (keys: seq<string>, cards: seq<Card>)
    ensures Enumerates(keys, OwnedKeys(s, email))
    ensures |cards| == |keys| == |OwnedKeys(s, email)|
    ensures forall i :: 0 <= i < |keys| ==> keys[i] in s && cards[i] == s[keys[i]] && cards[i].userEmail == email
  {
    keys, cards := Collect(s, OwnedKeys(s, email));
    assert forall i :: 0 <= i < |keys| ==> keys[i] in OwnedKeys(s, email) by {
      forall i | 0 <= i < |keys| ensures keys[i] in OwnedKeys(s, email) {
        assert keys[i] in keys;
      }
    }
  }

  /** `findAll`: every card of the table, each once. */
  method FindAll(s: Store) returns (keys: seq<string>, cards: seq<Card>)
    ensures Enumerates(keys, s.Keys)
    ensures |cards| == |keys| == |s|
    ensures forall i :: 0 <= i < |keys| ==> keys[i] in s && cards[i] == s[keys[i]]
  {
    keys, cards := Collect(s, s.Keys);
  }
}
