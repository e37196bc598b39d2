/** Who a booking is for. */
module Clients {
  import opened Basics
  import opened Schema
  import opened Ledger
  import opened Bookings

  /** The client has this email or this phone, and it is not blank. */
  predicate HasContact(c: Client, email: string, phone: string) {
    (email != "" && c.email == email) || (phone != "" && c.phone == phone)
  }

  /** `id` is the first client with the contact data, or a new one that has just them, with nothing spent. */
  predicate FoundOrAdded(before: seq<Client>, after: seq<Client>, id: int, name: string, email: string,
                         phone: string) {
    if exists i :: 0 <= i < |before| && HasContact(before[i], email, phone) then
      && after == before
      && 1 <= id <= |before| && HasContact(before[id - 1], email, phone)
      && forall i :: 0 <= i < id - 1 ==> !HasContact(before[i], email, phone)
    else
      after == before + [Client(name, email, phone, 0.0, None)] && id == |after|
  }

  lemma ClientFoundOrAdded(t: Tables, name: string, email: string, phone: string)
    ensures var (after, id) := FindOrCreate(t, name, email, phone);
      FoundOrAdded(t.clients, after.clients, id, name, email, phone) && after == t.(clients := after.clients)
  {
    assert forall i :: 0 <= i < |t.clients| ==>
      (Contact(email, phone)(t.clients[i]) <==> HasContact(t.clients[i], email, phone));
  }

  /**
   * A complete booking request finds the caller's client row, or adds it, whether the booking is then accepted or not;
   * an accepted one is for that client.
   */
  lemma BookingIsForCaller(t: Tables, call: Call)
    requires call.request.Book? && Given(call.request.name) && call.request.staff != 0 && call.request.service != 0
    ensures var r, after := call.request, Step(t, call);
      exists id ::
        && FoundOrAdded(t.clients, after.clients, id, r.name, r.email, r.phone)
        && (Respond(t, call).reply.Ok? ==>
              && |after.appointments| == |t.appointments| + 1
              && after.appointments[|t.appointments|].client == id)
  {
    var r := call.request;
    ClientFoundOrAdded(t, r.name, r.email, r.phone);
    WillBookIff(t, call);
    assert FoundOrAdded(t.clients, Step(t, call).clients, ClientOf(t, call), r.name, r.email, r.phone);
  }

  /**
   * The same contact data a second time: the client of the first time is found again, unless both the email and
   * the phone are blank, and then every booking makes a new client.
   */
  lemma ReturningClientIff(t: Tables, name: string, email: string, phone: string, later: string)
    ensures var (known, first) := FindOrCreate(t, name, email, phone);
      var (after, second) := FindOrCreate(known, later, email, phone);
      && Exists(first, known.clients) && t.clients <= known.clients
      && (email != "" || phone != "" ==> second == first && after == known)
      && (email == "" && phone == "" ==> second == first + 1 == |after.clients|)
  {
    var contact := Contact(email, phone);
    var (known, first) := FindOrCreate(t, name, email, phone);
    if email != "" || phone != "" {
      assert contact(known.clients[first - 1]);
      if Find(t.clients, contact).None? {
        assert forall i :: 0 <= i < |t.clients| ==> known.clients[i] == t.clients[i] && !contact(t.clients[i]);
      }
    } else {
      assert forall c: Client :: !contact(c);
    }
  }
}
