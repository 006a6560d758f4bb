/** The in-memory whitelist store of src/whitelist.ts: a list of entries and a `changed` flag
    that tells the periodic sync that the whitelist file must be rewritten. */
module WhitelistStore {
  import opened Wrappers
  import opened Decimal

  /** One binding of a Discord user to a Minecraft account. */
  datatype Entry = Entry(addedOn: int, discordId: string, minecraftUsername: string, minecraftUuid: string)

  /** The projection of an entry written to the whitelist file read by the game server. */
  datatype SyncedEntry = SyncedEntry(uuid: string, name: string)

  // ---------------------------------------------------------------------------------------
  // The `accounts` getter and its property-key test
  // ---------------------------------------------------------------------------------------

  /** Names that `name in array` finds on every array whatever its contents: its own `length`
      and what it inherits from Array.prototype and Object.prototype (the list of a current
      JavaScript engine). */
  predicate IsArrayPropertyName(name: string) {
    || name == "length" || name == "constructor" || name == "at" || name == "concat"
    || name == "copyWithin" || name == "fill" || name == "find" || name == "findIndex"
    || name == "findLast" || name == "findLastIndex" || name == "lastIndexOf" || name == "pop"
    || name == "push" || name == "reverse" || name == "shift" || name == "unshift"
    || name == "slice" || name == "sort" || name == "splice" || name == "includes"
    || name == "indexOf" || name == "join" || name == "keys" || name == "entries"
    || name == "values" || name == "forEach" || name == "filter" || name == "flat"
    || name == "flatMap" || name == "map" || name == "every" || name == "some"
    || name == "reduce" || name == "reduceRight" || name == "toLocaleString" || name == "toString"
    || name == "toReversed" || name == "toSorted" || name == "toSpliced" || name == "with"
    || name == "__defineGetter__" || name == "__defineSetter__" || name == "hasOwnProperty" || name == "__lookupGetter__"
    || name == "__lookupSetter__" || name == "isPrototypeOf" || name == "propertyIsEnumerable" || name == "valueOf"
    || name == "__proto__"
  }

  /** A string that names an array index: decimal digits without a leading zero ("0" itself
      is one). */
  predicate IsCanonicalIndex(s: string) {
    && |s| >= 1
    && AllDigits(s)
    && (|s| == 1 || s[0] != '0')
  }

  /** `name in list` for a JavaScript array of `length` elements: true when `name` is a
      property key of the array, whatever the elements are. */
  predicate IsArrayKey(name: string, length: nat) {
    IsArrayPropertyName(name) || (IsCanonicalIndex(name) && DecimalValue(name) < length)
  }

  /** The list that the `accounts` getter builds from `data` as written: each username in
      order, skipped when it is a property key of the list built so far (`in` tests keys, not
      values). */
  function AccountList(es: seq<Entry>): (r: seq<string>)
    ensures |r| <= |es|
    ensures forall i | 0 <= i < |r| :: !IsArrayKey(r[i], i)
  {
    if es == [] then []
    else
      var prev := AccountList(es[..|es| - 1]);
      var name := es[|es| - 1].minecraftUsername;
      if IsArrayKey(name, |prev|) then prev else prev + [name]
  }

  /** The usernames of the entries, in order. */
  function Names(es: seq<Entry>): (r: seq<string>)
    ensures |r| == |es|
    ensures forall i | 0 <= i < |es| :: r[i] == es[i].minecraftUsername
  {
    if es == [] then [] else Names(es[..|es| - 1]) + [es[|es| - 1].minecraftUsername]
  }

  /** `accounts` lists usernames of entries only, never more of them than there are entries. */
  lemma {:induction false} AccountListFromEntries(es: seq<Entry>)
    ensures |AccountList(es)| <= |es|
    ensures forall n | n in AccountList(es) :: n in Names(es)
  {
    if es != [] {
      AccountListFromEntries(es[..|es| - 1]);
      var init := es[..|es| - 1];
      assert Names(es) == Names(init) + [es[|es| - 1].minecraftUsername];
    }
  }

  /** The skip test looks at property keys, not at values: when no username is an array
      property name or an index, every username is listed, duplicates included. */
  lemma {:induction false} AccountListKeepsDuplicates(es: seq<Entry>)
    requires forall i | 0 <= i < |es| :: !IsArrayPropertyName(es[i].minecraftUsername)
    requires forall i | 0 <= i < |es| :: !IsCanonicalIndex(es[i].minecraftUsername)
    ensures AccountList(es) == Names(es)
  {
    if es != [] {
      AccountListKeepsDuplicates(es[..|es| - 1]);
    }
  }

  /** A username such as "length" or "push" is never listed by the getter as written, so a
      duplicate test made against that list never rejects it. */
  lemma {:induction false} PropertyNamesNeverListed(es: seq<Entry>, name: string)
    requires IsArrayPropertyName(name)
    ensures name !in AccountList(es)
  {
    if es != [] {
      PropertyNamesNeverListed(es[..|es| - 1], name);
    }
  }

  /** The same username twice is listed twice. */
  lemma DuplicateListedTwice(t: int, id: string, uuid: string)
    ensures AccountList([Entry(t, id, "Steve", uuid), Entry(t, id, "Steve", uuid)]) == ["Steve", "Steve"]
  {
    var s := Entry(t, id, "Steve", uuid);
    assert !IsCanonicalIndex("Steve") by { assert !IsDigit("Steve"[0]); }
    assert [s][..0] == [];
    assert AccountList([s]) == ["Steve"];
    assert [s, s][..1] == [s];
  }

  /** A username equal to an index of the list built so far is skipped. */
  lemma IndexNameSkipped(t: int, id: string, uuid: string)
    ensures AccountList([Entry(t, id, "Alex", uuid), Entry(t, id, "0", uuid)]) == ["Alex"]
  {
    var a, z := Entry(t, id, "Alex", uuid), Entry(t, id, "0", uuid);
    assert !IsCanonicalIndex("Alex") by { assert !IsDigit("Alex"[0]); }
    assert [a][..0] == [];
    assert AccountList([a]) == ["Alex"];
    assert [a, z][..1] == [a];
    assert DecimalValue("0") == 0 by { assert "0"[..0] == []; }
    assert IsArrayKey("0", 1);
  }

  /** With one "push" entry the list as written still lacks "push", so `add` as written takes a
      second one. */
  lemma PropertyNameAddedTwice(t: int, id: string, uuid: string)
    ensures "push" !in AccountList([Entry(t, id, "push", uuid)])
  {
    PropertyNamesNeverListed([Entry(t, id, "push", uuid)], "push");
  }

  /** The list the `accounts` getter is evidently meant to build: each username once, in the
      order of its first entry, skipped when the list built so far holds it as a value. */
  function UniqueNames(es: seq<Entry>): seq<string>
  {
    if es == [] then []
    else
      var prev := UniqueNames(es[..|es| - 1]);
      var name := es[|es| - 1].minecraftUsername;
      if name in prev then prev else prev + [name]
  }

  predicate NoDuplicates(names: seq<string>) {
    forall i, j | 0 <= i < j < |names| :: names[i] != names[j]
  }

  /** The corrected list holds every username of the entries and nothing else, each once. */
  lemma {:induction false} UniqueNamesSpec(es: seq<Entry>)
    ensures forall n :: n in UniqueNames(es) <==> n in Names(es)
    ensures NoDuplicates(UniqueNames(es))
  {
    if es != [] {
      var init := es[..|es| - 1];
      UniqueNamesSpec(init);
      assert Names(es) == Names(init) + [es[|es| - 1].minecraftUsername];
    }
  }

  /** No two entries carry the same username. */
  predicate UniqueUsernames(es: seq<Entry>) {
    forall i, j | 0 <= i < j < |es| :: es[i].minecraftUsername != es[j].minecraftUsername
  }

  /** Taking entries out keeps the usernames unique. */
  lemma {:induction false} SelectKeepsUniqueUsernames(es: seq<Entry>, p: Entry -> bool, want: bool)
    requires UniqueUsernames(es)
    ensures UniqueUsernames(Select(es, p, want))
  {
    if es != [] {
      var init, last := es[..|es| - 1], es[|es| - 1];
      SelectKeepsUniqueUsernames(init, p, want);
      SelectMembers(init, p, want);
      var prev := Select(init, p, want);
      forall e | e in prev
        ensures e.minecraftUsername != last.minecraftUsername
      {
        var i :| 0 <= i < |init| && init[i] == e;
        assert es[i] == e;
      }
    }
  }

  // ---------------------------------------------------------------------------------------
  // Filtering and projection
  // ---------------------------------------------------------------------------------------

  /** The entries of `es` for which `p` is `want`, in their original order. */
  function Select(es: seq<Entry>, p: Entry -> bool, want: bool): seq<Entry> {
    if es == [] then []
    else Select(es[..|es| - 1], p, want) + (if p(es[|es| - 1]) == want then [es[|es| - 1]] else [])
  }

  /** The entries kept and the entries taken out by a predicate account for every entry
      exactly once. */
  lemma {:induction false} SelectPartition(es: seq<Entry>, p: Entry -> bool)
    ensures multiset(Select(es, p, true)) + multiset(Select(es, p, false)) == multiset(es)
    ensures |Select(es, p, true)| + |Select(es, p, false)| == |es|
  {
    if es != [] {
      var init, last := es[..|es| - 1], es[|es| - 1];
      SelectPartition(init, p);
      assert es == init + [last];
      assert multiset(es) == multiset(init) + multiset{last};
      if p(last) {
        assert Select(es, p, true) == Select(init, p, true) + [last];
        assert Select(es, p, false) == Select(init, p, false);
      } else {
        assert Select(es, p, true) == Select(init, p, true);
        assert Select(es, p, false) == Select(init, p, false) + [last];
      }
    }
  }

  /** An entry is selected exactly when it is in `es` and `p` gives `want` for it. */
  lemma {:induction false} SelectMembers(es: seq<Entry>, p: Entry -> bool, want: bool)
    ensures forall e :: e in Select(es, p, want) <==> e in es && p(e) == want
  {
    if es != [] {
      var init := es[..|es| - 1];
      SelectMembers(init, p, want);
      assert es == init + [es[|es| - 1]];
    }
  }

  /** When nothing matches, removing keeps every entry. */
  lemma {:induction false} SelectNoneMatch(es: seq<Entry>, p: Entry -> bool)
    requires forall i | 0 <= i < |es| :: !p(es[i])
    ensures Select(es, p, true) == []
    ensures Select(es, p, false) == es
  {
    if es != [] {
      var init := es[..|es| - 1];
      SelectNoneMatch(init, p);
      assert es == init + [es[|es| - 1]];
    }
  }

  /** The `{uuid, name}` objects that `sync` writes, one per entry, in order. */
  function Project(es: seq<Entry>): (r: seq<SyncedEntry>)
    ensures |r| == |es|
  {
    if es == [] then [] else Project(es[..|es| - 1]) + [SyncedEntry(es[|es| - 1].minecraftUuid, es[|es| - 1].minecraftUsername)]
  }

  /** The projection drops no entry and reorders none: element i carries the uuid and the
      username of entry i. */
  lemma {:induction false} ProjectAt(es: seq<Entry>)
    ensures |Project(es)| == |es|
    ensures forall i | 0 <= i < |es| :: Project(es)[i] == SyncedEntry(es[i].minecraftUuid, es[i].minecraftUsername)
  {
    if es != [] {
      ProjectAt(es[..|es| - 1]);
    }
  }

  // ---------------------------------------------------------------------------------------
  // The store
  // ---------------------------------------------------------------------------------------

  /** The account lookup gives an id that `if (!uuid)` accepts: present and non-empty. */
  predicate IsAccountId(lookup: Option<string>) {
    lookup.Some? && lookup.value != ""
  }

  function NoAccountMessage(username: string): string {
    "No minecraft account exists with username " + username + "!"
  }

  function DuplicateMessage(username: string): string {
    "The minecraft account `" + username + "` already exists in the whitelist!"
  }

  class Whitelist {
    /** The entries, in the order they were added. */
    var data: seq<Entry>
    /** Set by every change to `data`; cleared by a successful write of the whitelist file. */
    var changed: bool
    /** The path of the whitelist file. */
    const path: string

    /** A new store is empty and marked changed, so its first sync writes an empty list. */
    constructor (path: string)
      ensures this.path == path
      ensures data == [] && changed
    {
      this.path := path;
      changed := true;
      data := [];
    }

    /** The `accounts` getter: a username is skipped when it is a property key of the list
        built so far. */
    method Accounts() returns (accounts: seq<string>)
      ensures accounts == AccountList(data)
    {
      accounts := [];
      for i := 0 to |data|
        invariant accounts == AccountList(data[..i])
      {
        assert data[..i + 1][..i] == data[..i];
        var name := data[i].minecraftUsername;
        if IsArrayKey(name, |accounts|) {
          continue;
        }
        accounts := accounts + [name];
      }
      assert data[..|data|] == data;
    }

    /** `add`, with the result of the account lookup `lookup` and the clock reading `now`
        given as inputs. The lookup is checked first, then whether `accounts` lists the
        username. No username is ever listed twice by `accounts` after an `add` if none was
        before. */
    method Add(discordId: string, minecraftUsername: string, lookup: Option<string>, now: int)
      returns (r: Result<Entry, string>)
      modifies this
      ensures !IsAccountId(lookup) ==> r == Failure(NoAccountMessage(minecraftUsername))
      ensures IsAccountId(lookup) && minecraftUsername in AccountList(old(data)) ==>
                r == Failure(DuplicateMessage(minecraftUsername))
      ensures r.Failure? ==> data == old(data) && changed == old(changed)
      ensures r.Success? <==> IsAccountId(lookup) && minecraftUsername !in AccountList(old(data))
      ensures r.Success? ==>
                && r.value == Entry(now, discordId, minecraftUsername, lookup.value)
                && data == old(data) + [r.value]
                && changed
      ensures NoDuplicates(AccountList(old(data))) ==> NoDuplicates(AccountList(data))
    {
      if !IsAccountId(lookup) {
        return Failure(NoAccountMessage(minecraftUsername));
      }
      var uuid := lookup.value;
      var accounts := Accounts();
      if minecraftUsername in accounts {
        return Failure(DuplicateMessage(minecraftUsername));
      }
      changed := true;
      var entry := Entry(now, discordId, minecraftUsername, uuid);
      assert (data + [entry])[..|data|] == data;
      data := data + [entry];
      return Success(entry);
    }

    /** `remove`: keeps the entries `filter` rejects and returns the ones it accepts, both in
        their original order; `changed` is set as soon as one entry is taken out. */
    method Remove(filter: Entry -> bool) returns (removed: seq<Entry>)
      modifies this
      ensures data == Select(old(data), filter, false)
      ensures removed == Select(old(data), filter, true)
      ensures changed == (old(changed) || exists e :: e in old(data) && filter(e))
    {
      var kept: seq<Entry> := [];
      removed := [];
      var entries := data;
      for i := 0 to |entries|
        invariant data == entries
        invariant kept == Select(entries[..i], filter, false)
        invariant removed == Select(entries[..i], filter, true)
        invariant changed == (old(changed) || removed != [])
      {
        assert entries[..i + 1][..i] == entries[..i];
        var entry := data[i];
        if !filter(entry) {
          kept := kept + [entry];
        } else {
          changed := true;
          removed := removed + [entry];
        }
      }
      assert entries[..|entries|] == entries;
      SelectMembers(entries, filter, true);
      if removed != [] {
        assert removed[0] in removed;
      }
      data := kept;
    }

    /** `filter`: the matching entries in order; the store is not changed. */
    method Filter(filter: Entry -> bool) returns (matching: seq<Entry>)
      ensures matching == Select(data, filter, true)
    {
      matching := Select(data, filter, true);
    }

    /** One `sync` call, with the outcome of the file write given as `writeSucceeds`. It
        returns the projection it wrote, or None when there was nothing to write. */
    method Sync(writeSucceeds: bool) returns (written: Option<seq<SyncedEntry>>)
      modifies this
      ensures data == old(data)
      ensures !old(changed) ==> written == None && !changed
      ensures old(changed) ==> written == Some(Project(data)) && changed == !writeSucceeds
    {
      if !changed {
        return None;
      }
      var projection := Project(data);
      if writeSucceeds {
        changed := false;
      }
      return Some(projection);
    }
  }

  /** The store as written takes "push" twice: `accounts` never lists a property name, so the
      duplicate test of `add` lets the second one through. */
  method SecondPushAccepted(path: string, discordId: string, now: int)
    returns (first: Result<Entry, string>, second: Result<Entry, string>, stored: seq<Entry>)
    ensures first.Success? && second.Success?
    ensures |stored| == 2 && stored[0].minecraftUsername == "push" && stored[1].minecraftUsername == "push"
    ensures !UniqueUsernames(stored)
  {
    var store := new Whitelist(path);
    first := store.Add(discordId, "push", Some("abc"), now);
    PropertyNamesNeverListed(store.data, "push");
    second := store.Add(discordId, "push", Some("abc"), now);
    stored := store.data;
  }

  /** `add` with the value test the getter evidently intends (see UniqueNames): a username
      already stored is rejected, whatever it is. */
  function AddCorrected(data: seq<Entry>, discordId: string, minecraftUsername: string, lookup: Option<string>, now: int)
    : (r: Result<seq<Entry>, string>)
    ensures !IsAccountId(lookup) ==> r == Failure(NoAccountMessage(minecraftUsername))
    ensures IsAccountId(lookup) && minecraftUsername in Names(data) ==> r == Failure(DuplicateMessage(minecraftUsername))
    ensures r.Success? <==> IsAccountId(lookup) && minecraftUsername !in Names(data)
    ensures r.Success? ==> r.value == data + [Entry(now, discordId, minecraftUsername, lookup.value)]
  {
    UniqueNamesSpec(data);
    if !IsAccountId(lookup) then Failure(NoAccountMessage(minecraftUsername))
    else if minecraftUsername in UniqueNames(data) then Failure(DuplicateMessage(minecraftUsername))
    else Success(data + [Entry(now, discordId, minecraftUsername, lookup.value)])
  }

  /** The corrected `add` never stores a username twice. */
  lemma AddCorrectedKeepsUnique(data: seq<Entry>, discordId: string, minecraftUsername: string, lookup: Option<string>, now: int)
    requires UniqueUsernames(data)
    ensures var r := AddCorrected(data, discordId, minecraftUsername, lookup, now);
            r.Success? ==> UniqueUsernames(r.value)
  {
    var r := AddCorrected(data, discordId, minecraftUsername, lookup, now);
    if r.Success? {
      forall i | 0 <= i < |data|
        ensures data[i].minecraftUsername != minecraftUsername
      {
        assert Names(data)[i] == data[i].minecraftUsername;
      }
    }
  }

  /** The first sync of a new store writes an empty list. */
  method FirstSyncWritesEmptyList(path: string, writeSucceeds: bool)
    returns (written: Option<seq<SyncedEntry>>, stillChanged: bool)
    ensures written == Some([])
    ensures stillChanged == !writeSucceeds
  {
    var store := new Whitelist(path);
    written := store.Sync(writeSucceeds);
    stillChanged := store.changed;
  }

  /** The entries the member-leave event deletes: those of the member who left. */
  predicate OfMember(memberId: string, e: Entry) {
    e.discordId == memberId
  }

  /** A member leaving the guild, expressed as `remove` by Discord id: afterwards no entry of
      that member is left and every other entry is still there. */
  method MemberLeave(store: Whitelist, memberId: string) returns (removed: seq<Entry>)
    modifies store
    ensures store.data == Select(old(store.data), e => OfMember(memberId, e), false)
    ensures removed == Select(old(store.data), e => OfMember(memberId, e), true)
    ensures store.changed == (old(store.changed) || exists e :: e in old(store.data) && e.discordId == memberId)
    ensures forall e | e in store.data :: e.discordId != memberId
    ensures forall e | e in old(store.data) && e.discordId != memberId :: e in store.data
    ensures forall e | e in old(store.data) && e.discordId == memberId :: e in removed
    ensures forall e | e in removed :: e.discordId == memberId
  {
    var ofMember := e => OfMember(memberId, e);
    removed := store.Remove(ofMember);
    SelectMembers(old(store.data), ofMember, false);
    SelectMembers(old(store.data), ofMember, true);
  }
}
