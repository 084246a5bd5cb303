/** What one compare, add-user or add-guest request does when nothing else is going on. */
module EngineSpec {

  type Model = int  // a face feature

  datatype Entry = Entry(model: Model, id: int)

  const THRESHOLD: real := 0.95

  /** The user cache, fixed after construction, and the library's score for a pair of features. */
  datatype Config = Config(users: seq<Entry>, score: (Model, Model) -> real) {
    predicate Matches(model: Model, probe: Model) { score(model, probe) > THRESHOLD }
  }

  /** `loads`: the image decodes. `extracted`: exactly one face was found and its feature computed. */
  datatype Request =
    | Compare(loads: bool, probe: Model, ip: string)
    | AddUser(loads: bool, extracted: bool, model: Model, id: int)
    | AddGuest(loads: bool, extracted: bool, model: Model, id: int)

  const USER: int := 1
  const GUEST: int := 2

  datatype Record = Record(id: int, kind: int, ip: string)

  /** The guest cache, the rows added to the import log, and the features written back for users. */
  datatype Db = Db(guests: seq<Entry>, log: seq<Record>, updates: seq<Entry>)

  /** The position of the first match, or the length of the list. */
  function First(c: Config, es: seq<Entry>, probe: Model): (k: nat)
    ensures k <= |es|
    ensures forall i :: 0 <= i < k ==> !c.Matches(es[i].model, probe)
    ensures k < |es| ==> c.Matches(es[k].model, probe)
  {
    if es == [] || c.Matches(es[0].model, probe) then 0 else 1 + First(c, es[1..], probe)
  }

  /** A scan that has found nothing before `k` and a match at `k` has found the first. */
  lemma FirstIs(c: Config, es: seq<Entry>, probe: Model, k: nat)
    requires k <= |es|
    requires forall i :: 0 <= i < k ==> !c.Matches(es[i].model, probe)
    requires k < |es| ==> c.Matches(es[k].model, probe)
    ensures First(c, es, probe) == k
  {
    var f := First(c, es, probe);
    assert !(f < k) && !(k < f);
  }

  /** The effect and the return value of a request executed alone. */
  function Execute(c: Config, db: Db, r: Request): (Db, int)
  {
    if !r.loads then (db, 1) else
      match r
      case Compare(_, probe, ip) =>
        var u, g := First(c, c.users, probe), First(c, db.guests, probe);
        if u < |c.users| then (db.(log := db.log + [Record(c.users[u].id, USER, ip)]), 0)
        else if g < |db.guests| then (db.(log := db.log + [Record(db.guests[g].id, GUEST, ip)]), 0)
        else (db, 1)
      case AddUser(_, extracted, model, id) =>
        if extracted then (db.(updates := db.updates + [Entry(model, id)]), 0) else (db, 1)
      case AddGuest(_, extracted, model, id) =>
        if extracted then (db.(guests := db.guests + [Entry(model, id)]), 0) else (db, 1)
  }

  predicate Matched(c: Config, es: seq<Entry>, probe: Model)
  {
    exists i :: 0 <= i < |es| && c.Matches(es[i].model, probe)
  }

  /** Some entry scores above the threshold, written out. */
  predicate ScoresAbove(c: Config, es: seq<Entry>, probe: Model)
  {
    exists i :: 0 <= i < |es| && c.score(es[i].model, probe) > 0.95
  }

  lemma MatchedIsAbove(c: Config, es: seq<Entry>, probe: Model)
    ensures Matched(c, es, probe) <==> ScoresAbove(c, es, probe)
  {
    assert forall i :: 0 <= i < |es| ==>
      (c.Matches(es[i].model, probe) <==> c.score(es[i].model, probe) > 0.95);
  }

  /** `r` is the record of the first entry of `es` that scores above the threshold. */
  predicate RecordsFirstMatch(c: Config, es: seq<Entry>, probe: Model, r: Record)
  {
    exists k :: 0 <= k < |es| && es[k].id == r.id && c.score(es[k].model, probe) > 0.95
                && forall i :: 0 <= i < k ==> c.score(es[i].model, probe) <= 0.95
  }

  /** A comparison of an image that loads succeeds exactly when some user's or some guest's score is above
      0.95; it then logs one record, for the first such user, as type 1, if there is one and else for the
      first such guest, as type 2. */
  lemma CompareVerdict(c: Config, db: Db, probe: Model, ip: string)
    ensures var (db', ret) := Execute(c, db, Compare(true, probe, ip));
            && (ret == 0 <==> ScoresAbove(c, c.users, probe) || ScoresAbove(c, db.guests, probe))
            && (ret == 0 || ret == 1)
            && db'.guests == db.guests && db'.updates == db.updates
            && (ret == 1 ==> db'.log == db.log)
            && (ret == 0 ==>
                  && |db'.log| == |db.log| + 1 && db'.log[..|db.log|] == db.log
                  && var r := db'.log[|db.log|];
                     r.ip == ip && if ScoresAbove(c, c.users, probe)
                                   then r.kind == 1 && RecordsFirstMatch(c, c.users, probe, r)
                                   else r.kind == 2 && RecordsFirstMatch(c, db.guests, probe, r))
  {
    var u, g := First(c, c.users, probe), First(c, db.guests, probe);
    if u < |c.users| {
      assert c.score(c.users[u].model, probe) > 0.95;
    } else if g < |db.guests| {
      assert c.score(db.guests[g].model, probe) > 0.95;
    }
  }

  predicate AppendsEntry(es: seq<Entry>, es': seq<Entry>, model: Model, id: int)
  {
    |es'| == |es| + 1 && es'[..|es|] == es && es'[|es|].model == model && es'[|es|].id == id
  }

  /** An add request succeeds exactly when the image loads and one face is extracted. It then appends its
      entry to the one list that it is for, the user updates or the guests; otherwise it changes nothing. */
  lemma AddVerdict(c: Config, db: Db, r: Request)
    requires !r.Compare?
    ensures var (db', ret) := Execute(c, db, r);
            && (ret == 0 || ret == 1)
            && (ret == 0 <==> r.loads && r.extracted)
            && db'.log == db.log
            && (ret == 1 ==> db'.guests == db.guests && db'.updates == db.updates)
            && (ret == 0 && r.AddUser? ==>
                  db'.guests == db.guests && AppendsEntry(db.updates, db'.updates, r.model, r.id))
            && (ret == 0 && r.AddGuest? ==>
                  db'.updates == db.updates && AppendsEntry(db.guests, db'.guests, r.model, r.id))
  {
  }

  /** A request whose image does not load changes nothing and fails, whatever it is. */
  lemma UnloadedChangesNothing(c: Config, db: Db, r: Request)
    requires !r.loads
    ensures Execute(c, db, r) == (db, 1)
  {
  }
}
