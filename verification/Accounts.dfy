/**
 DNS accounts and the filtering groups that name them (`account:<name>` client
 entries): renaming an account rewrites its entries, deleting it removes them.
 Letter case is folded character by character by `fold`, a parameter.
 */
module Accounts {
  import opened Addresses
  import opened Text

  const PREFIX := "account:"

  datatype Account = Account(name: string, clientId: string, enabled: bool)

  /** `clients` is none when the stored list cannot be read. */
  datatype Group = Group(enabled: bool, clients: Option<seq<string>>)

  datatype Outcome<+T> = Done(value: T) | Refused

  function Folded(s: string, fold: char -> char): (r: string)
    ensures |r| == |s|
    ensures forall i | 0 <= i < |s| :: r[i] == fold(s[i])
  {
    seq(|s|, i requires 0 <= i < |s| => fold(s[i]))
  }

  predicate SameName(a: string, b: string, fold: char -> char) {
    Folded(a, fold) == Folded(b, fold)
  }

  /** What the code relies on: folding covers ASCII case, leaves white space white space, and nothing else folds into the prefix. */
  ghost predicate Folding(fold: char -> char) {
    && (forall c :: fold(LowerChar(c)) == fold(c))
    && (forall c :: IsSpace(fold(c)) <==> IsSpace(c))
    && (forall c, i | 0 <= i < |PREFIX| :: fold(c) == fold(PREFIX[i]) <==> LowerChar(c) == PREFIX[i])
  }

  predicate Control(c: char) {
    c as int < 0x20 || 0x7f <= c as int < 0xa0
  }

  predicate ValidName(name: string) {
    1 <= |name| <= 64 && forall c | c in name :: !Control(c) && c != ',' && c != ':'
  }

  predicate ValidClientId(id: string) {
    && 1 <= |id| <= 63 && id[0] != '-' && id[|id| - 1] != '-'
    && forall c | c in id :: 'a' <= c <= 'z' || '0' <= c <= '9' || c == '-'
  }

  /** Which names are refused: no characters or more than 64, a control character, a comma or a colon. */
  lemma RefusedNames(name: string)
    ensures !ValidName(name) <==>
      || name == "" || |name| >= 65
      || exists i :: 0 <= i < |name|
           && (name[i] in {',', ':'} || name[i] as int < 32 || 127 <= name[i] as int <= 159)
  {
    if !ValidName(name) && name != "" && |name| < 65 {
      var c :| c in name && (Control(c) || c == ',' || c == ':');
      var i :| 0 <= i < |name| && name[i] == c;
    }
    assert forall i | 0 <= i < |name| :: name[i] in name;
  }

  /** Client IDs are single labels: letters in lowercase and digits, with hyphens inside. */
  lemma RefusedClientIds(id: string)
    ensures !ValidClientId(id) <==>
      || id == "" || |id| >= 64 || id[0] == '-' || id[|id| - 1] == '-'
      || exists i :: 0 <= i < |id|
           && !('a' <= id[i] <= 'z') && !('0' <= id[i] <= '9') && id[i] != '-'
  {
    if !ValidClientId(id) && 1 <= |id| < 64 && id[0] != '-' && id[|id| - 1] != '-' {
      var c :| c in id && !('a' <= c <= 'z' || '0' <= c <= '9' || c == '-');
      var i :| 0 <= i < |id| && id[i] == c;
    }
    assert forall i | 0 <= i < |id| :: id[i] in id;
  }

  // ---- Reading client entries ---------------------------------------------------------

  /** The account name in a client entry, as the filtering engine reads it. */
  function AccountEntry(entry: string): Option<string> {
    var t := Trim(entry);
    if |t| >= |PREFIX| && Lower(t[..|PREFIX|]) == PREFIX && Trim(t[|PREFIX|..]) != "" then Some(Trim(t[|PREFIX|..]))
    else None
  }

  /** `entry` names the account called `name`. */
  predicate Names(entry: string, name: string, fold: char -> char) {
    AccountEntry(entry).Some? && SameName(AccountEntry(entry).value, name, fold)
  }

  /** The comparison the rewriting makes. */
  predicate Matches(entry: string, name: string, fold: char -> char) {
    Folded(Trim(entry), fold) == Folded(PREFIX + name, fold)
  }

  predicate Trimmed(s: string) {
    s == "" || (!IsSpace(s[0]) && !IsSpace(s[|s| - 1]))
  }

  lemma TrimIsTrimmed(s: string)
    ensures Trimmed(Trim(s))
  {
  }

  lemma TrimOfTrimmed(s: string)
    requires Trimmed(s)
    ensures Trim(s) == s
  {
  }

  lemma PrefixFolds(t: string, fold: char -> char)
    requires Folding(fold) && |t| == |PREFIX|
    ensures Folded(t, fold) == Folded(PREFIX, fold) <==> Lower(t) == PREFIX
  {
    if Folded(t, fold) == Folded(PREFIX, fold) {
      forall i | 0 <= i < |t|
        ensures Lower(t)[i] == PREFIX[i]
      {
        assert Folded(t, fold)[i] == Folded(PREFIX, fold)[i];
      }
    }
    if Lower(t) == PREFIX {
      forall i | 0 <= i < |t|
        ensures Folded(t, fold)[i] == Folded(PREFIX, fold)[i]
      {
        assert LowerChar(t[i]) == Lower(t)[i];
      }
    }
  }

  lemma FoldedSplit(a: string, b: string, fold: char -> char)
    ensures Folded(a + b, fold) == Folded(a, fold) + Folded(b, fold)
  {
  }

  lemma FoldedTrimmed(a: string, b: string, fold: char -> char)
    requires Folding(fold) && SameName(a, b, fold)
    ensures Trimmed(a) <==> Trimmed(b)
  {
    if a != "" {
      assert Folded(a, fold)[0] == fold(a[0]) && Folded(b, fold)[0] == fold(b[0]);
      assert Folded(a, fold)[|a| - 1] == fold(a[|a| - 1]) && Folded(b, fold)[|b| - 1] == fold(b[|b| - 1]);
    }
  }

  /**
   The rewriting catches an entry that names an account exactly when nothing
   but the name follows the prefix: `account: bob` names bob, and is missed.
   */
  lemma MatchesExactly(entry: string, name: string, fold: char -> char)
    requires Folding(fold) && name != "" && Trimmed(name)
    ensures Matches(entry, name, fold) <==>
              Names(entry, name, fold) && Trimmed(Trim(entry)[|PREFIX|..])
  {
    var t := Trim(entry);
    if |t| >= |PREFIX| {
      assert t == t[..|PREFIX|] + t[|PREFIX|..];
      MatchesInParts(t[..|PREFIX|], t[|PREFIX|..], name, fold);
    }
  }

  lemma MatchesInParts(head: string, rest: string, name: string, fold: char -> char)
    requires Folding(fold) && name != "" && Trimmed(name) && |head| == |PREFIX|
    ensures Folded(head + rest, fold) == Folded(PREFIX + name, fold) <==>
              Lower(head) == PREFIX && Trim(rest) != "" && SameName(Trim(rest), name, fold) && Trimmed(rest)
  {
    FoldsInParts(head, rest, name, fold);
    PrefixFolds(head, fold);
    if SameName(rest, name, fold) {
      FoldedTrimmed(rest, name, fold);
    }
    if Trimmed(rest) {
      TrimOfTrimmed(rest);
    }
  }

  lemma FoldsInParts(head: string, rest: string, name: string, fold: char -> char)
    requires |head| == |PREFIX|
    ensures Folded(head + rest, fold) == Folded(PREFIX + name, fold) <==>
              Folded(head, fold) == Folded(PREFIX, fold) && SameName(rest, name, fold)
  {
    FoldedSplit(head, rest, fold);
    FoldedSplit(PREFIX, name, fold);
    SameParts(Folded(head, fold), Folded(rest, fold), Folded(PREFIX, fold), Folded(name, fold));
  }

  lemma SameParts(a: string, b: string, c: string, d: string)
    requires |a| == |c|
    ensures a + b == c + d <==> a == c && b == d
  {
    if a + b == c + d {
      assert a == (a + b)[..|a|] && b == (a + b)[|a|..] && c == (c + d)[..|a|] && d == (c + d)[|a|..];
    }
  }

  /** With a space after the prefix an entry names the account all the same, and is missed. */
  lemma SpacedEntryIsMissed(name: string, fold: char -> char)
    requires Folding(fold) && name != "" && Trimmed(name)
    ensures Names("account: " + name, name, fold) && !Matches("account: " + name, name, fold)
    ensures Entry(name) == "account:" + name
  {
    assert "account: " + name == PREFIX + " " + name;
    SpacedIsMissed(name, fold);
  }

  lemma SpacedIsMissed(name: string, fold: char -> char)
    requires Folding(fold) && name != "" && Trimmed(name)
    ensures Names(PREFIX + " " + name, name, fold) && !Matches(PREFIX + " " + name, name, fold)
  {
    var e := PREFIX + " " + name;
    SpaceInFront(name);
    SpacedParts(e, name);
    LowerOfLower(PREFIX);
    MatchesExactly(e, name, fold);
  }

  lemma SpaceInFront(name: string)
    requires name != "" && Trimmed(name)
    ensures Trim(" " + name) == name && !Trimmed(" " + name)
  {
    var s := " " + name;
    assert s[0] == ' ' && s[1..] == name;
    TrimOfTrimmed(name);
    assert TrimLeft(s) == TrimLeft(name);
  }

  lemma SpacedParts(e: string, name: string)
    requires name != "" && Trimmed(name) && e == PREFIX + " " + name
    ensures Trim(e) == e && e[..|PREFIX|] == PREFIX && e[|PREFIX|..] == " " + name
  {
    assert e[0] == PREFIX[0] && e[|e| - 1] == name[|name| - 1];
    TrimOfTrimmed(e);
  }

  /** An entry as it is stored: the prefix and the account's own spelling. */
  function Entry(name: string): string {
    PREFIX + name
  }

  lemma StoredEntry(name: string, other: string, fold: char -> char)
    requires Folding(fold) && name != "" && Trimmed(name) && other != "" && Trimmed(other)
    ensures AccountEntry(Entry(name)) == Some(name)
    ensures Matches(Entry(name), other, fold) <==> SameName(name, other, fold)
    ensures Names(Entry(name), other, fold) <==> SameName(name, other, fold)
  {
    var e := Entry(name);
    assert Trimmed(e) by {
      assert e[0] == 'a' && e[|e| - 1] == name[|name| - 1];
    }
    TrimOfTrimmed(e);
    assert e[..|PREFIX|] == PREFIX && e[|PREFIX|..] == name;
    TrimOfTrimmed(name);
    LowerOfLower(PREFIX);
    MatchesExactly(e, other, fold);
  }

  // ---- Rewriting groups ----------------------------------------------------------------

  /** `entries` with those for `was` renamed to `to`, or dropped. */
  function Rewritten(entries: seq<string>, was: string, to: Option<string>, fold: char -> char): seq<string> {
    if entries == [] then []
    else
      RewrittenEntry(entries[0], was, to, fold) + Rewritten(entries[1..], was, to, fold)
  }

  /** A group left without any client by the rewriting is turned off: empty, it would cover everyone. */
  function RewrittenGroup(g: Group, was: string, to: Option<string>, fold: char -> char): Group {
    if g.clients.None? || forall e | e in g.clients.value :: !Matches(e, was, fold) then g
    else
      var rest := Rewritten(g.clients.value, was, to, fold);
      Group(g.enabled && rest != [], Some(rest))
  }

  function RewrittenGroups(groups: map<string, Group>, was: string, to: Option<string>, fold: char -> char): map<string, Group> {
    map g | g in groups :: RewrittenGroup(groups[g], was, to, fold)
  }

  /** Renaming keeps every entry's place. */
  lemma {:induction false} RenamedAt(entries: seq<string>, was: string, to: string, fold: char -> char, i: nat)
    requires i < |entries|
    ensures |Rewritten(entries, was, Some(to), fold)| == |entries|
    ensures Rewritten(entries, was, Some(to), fold)[i] ==
              if Matches(entries[i], was, fold) then Entry(to) else entries[i]
    decreases |entries|
  {
    if |entries| > 1 {
      RenamedAt(entries[1..], was, to, fold, if i == 0 then 0 else i - 1);
    }
  }

  lemma {:induction false} DroppedAre(entries: seq<string>, was: string, fold: char -> char)
    ensures forall e :: e in Rewritten(entries, was, None, fold) <==> e in entries && !Matches(e, was, fold)
    decreases |entries|
  {
    if entries != [] {
      DroppedAre(entries[1..], was, fold);
    }
  }

  /** What becomes of one entry. */
  function RewrittenEntry(e: string, was: string, to: Option<string>, fold: char -> char): seq<string> {
    if !Matches(e, was, fold) then [e] else if to.Some? then [Entry(to.value)] else []
  }

  lemma {:induction false} RewrittenAppend(entries: seq<string>, e: string, was: string, to: Option<string>, fold: char -> char)
    ensures Rewritten(entries + [e], was, to, fold) == Rewritten(entries, was, to, fold) + RewrittenEntry(e, was, to, fold)
    decreases |entries|
  {
    var all := entries + [e];
    if entries == [] {
      assert all[0] == e && all[1..] == [];
    } else {
      var first, rest := entries[0], entries[1..];
      assert all[0] == first && all[1..] == rest + [e];
      RewrittenAppend(rest, e, was, to, fold);
      SumsRegroup(RewrittenEntry(first, was, to, fold), Rewritten(rest, was, to, fold), RewrittenEntry(e, was, to, fold));
    }
  }

  lemma SumsRegroup(a: seq<string>, b: seq<string>, c: seq<string>)
    ensures a + (b + c) == a + b + c
  {
  }

  method RewriteEntries(entries: seq<string>, was: string, to: Option<string>, fold: char -> char)
    returns (rest: seq<string>)
    ensures rest == Rewritten(entries, was, to, fold)
  {
    rest := [];
    for i := 0 to |entries|
      invariant rest == Rewritten(entries[..i], was, to, fold)
    {
      var e := entries[i];
      assert entries[..i + 1] == entries[..i] + [e];
      RewrittenAppend(entries[..i], e, was, to, fold);
      if !Matches(e, was, fold) {
        rest := rest + [e];
      } else if to.Some? {
        rest := rest + [Entry(to.value)];
      }
    }
    assert entries[..|entries|] == entries;
  }

  method RewriteGroup(group: Group, was: string, to: Option<string>, fold: char -> char) returns (r: Group)
    ensures r == RewrittenGroup(group, was, to, fold)
  {
    r := group;
    if group.clients.Some? && exists e :: e in group.clients.value && Matches(e, was, fold) {
      var rest := RewriteEntries(group.clients.value, was, to, fold);
      r := Group(if rest == [] then false else group.enabled, Some(rest));
    }
  }

  // ---- The stored tables -----------------------------------------------------------------

  datatype Db = Db(accounts: map<string, Account>, groups: map<string, Group>)

  predicate NameFree(accounts: map<string, Account>, name: string, except: Option<string>, fold: char -> char) {
    forall id | id in accounts && Some(id) != except :: !SameName(accounts[id].name, name, fold)
  }

  predicate ClientIdFree(accounts: map<string, Account>, clientId: string, except: Option<string>) {
    forall id | id in accounts && Some(id) != except :: accounts[id].clientId != clientId
  }

  /** `entry` is not an account entry, or the stored one of an account there is. */
  predicate Resolves(entry: string, accounts: map<string, Account>) {
    AccountEntry(entry).Some? ==> exists id :: id in accounts && entry == Entry(accounts[id].name)
  }

  /** Accounts are valid, and differ in name (ignoring case) and client ID. */
  ghost predicate GoodAccounts(accounts: map<string, Account>, fold: char -> char) {
    && (forall id | id in accounts ::
          ValidName(accounts[id].name) && Trimmed(accounts[id].name) && ValidClientId(accounts[id].clientId))
    && (forall i, j | i in accounts && j in accounts && i != j ::
          && !SameName(accounts[i].name, accounts[j].name, fold)
          && accounts[i].clientId != accounts[j].clientId)
  }

  predicate HasEntry(db: Db, g: string, e: string) {
    g in db.groups && db.groups[g].clients.Some? && e in db.groups[g].clients.value
  }

  ghost predicate AllResolve(db: Db) {
    forall g, e | HasEntry(db, g, e) :: Resolves(e, db.accounts)
  }

  ghost predicate WellFormed(db: Db, fold: char -> char) {
    GoodAccounts(db.accounts, fold) && AllResolve(db)
  }

  /** In an account entry nothing but the name follows the prefix. */
  predicate Tight(e: string) {
    AccountEntry(e).Some? ==> Trimmed(Trim(e)[|PREFIX|..])
  }

  predicate TightList(entries: seq<string>) {
    forall i | 0 <= i < |entries| :: Tight(entries[i])
  }

  ghost predicate TightGroups(groups: map<string, Group>) {
    forall g | g in groups && groups[g].clients.Some? :: TightList(groups[g].clients.value)
  }

  function Renamed(db: Db, id: string, account: Account, fold: char -> char): Db
    requires id in db.accounts
  {
    Db(db.accounts[id := account],
       if db.accounts[id].name == account.name then db.groups
       else RewrittenGroups(db.groups, db.accounts[id].name, Some(account.name), fold))
  }

  function Removed(db: Db, id: string, fold: char -> char): Db
    requires id in db.accounts
  {
    Db(db.accounts - {id}, RewrittenGroups(db.groups, db.accounts[id].name, None, fold))
  }

  /** The account an update asks for: an empty client ID keeps the current one. */
  function Asked(current: Account, name: string, clientId: string, enabled: bool): Account {
    var wanted := Lower(Trim(clientId));
    Account(Trim(name), if wanted == "" then current.clientId else wanted, enabled)
  }

  class Store {
    var db: Db
    const fold: char -> char

    constructor (fold: char -> char)
      ensures db == Db(map[], map[]) && this.fold == fold
    {
      db := Db(map[], map[]);
      this.fold := fold;
    }

    /** Every group, one after the other, as the code rewrites them. */
    method RewriteGroupEntries(was: string, to: Option<string>)
      modifies this
      ensures db == old(db).(groups := RewrittenGroups(old(db).groups, was, to, fold))
    {
      var todo := db.groups.Keys;
      ghost var before := db.groups;
      while todo != {}
        invariant todo <= before.Keys && db.groups.Keys == before.Keys && db.accounts == old(db).accounts
        invariant forall g | g in before ::
                    db.groups[g] == if g in todo then before[g] else RewrittenGroup(before[g], was, to, fold)
        decreases |todo|
      {
        var g :| g in todo;
        var group := RewriteGroup(db.groups[g], was, to, fold);
        db := db.(groups := db.groups[g := group]);
        todo := todo - {g};
      }
      assert db.groups == RewrittenGroups(before, was, to, fold);
    }

    /** `id` and `generated` are the random choices: a new row id, and a client ID if none is given. */
    method CreateAccount(name: string, clientId: string, enabled: bool, id: string, generated: string)
      returns (r: Outcome<Account>)
      requires id !in db.accounts
      modifies this
      ensures var wanted := Lower(Trim(clientId));
              var a := Account(Trim(name), if wanted == "" then generated else wanted, enabled);
              var ok := ValidName(a.name) && ValidClientId(a.clientId)
                        && NameFree(old(db).accounts, a.name, None, fold) && ClientIdFree(old(db).accounts, a.clientId, None);
              && r == (if ok then Done(a) else Refused)
              && db == if ok then old(db).(accounts := old(db).accounts[id := a]) else old(db)
      ensures r.Done? ==> Acceptable(old(db), r.value, None, fold)
      ensures r.Done? ==> forall pending :: Next(Sys(old(db), pending), Create(id, r.value), Sys(db, pending), fold)
    {
      var wanted := Lower(Trim(clientId));
      TrimIsTrimmed(name);
      var a := Account(Trim(name), if wanted == "" then generated else wanted, enabled);
      if !ValidName(a.name) || !ValidClientId(a.clientId)
         || !NameFree(db.accounts, a.name, None, fold) || !ClientIdFree(db.accounts, a.clientId, None) {
        return Refused;
      }
      db := db.(accounts := db.accounts[id := a]);
      return Done(a);
    }

    method UpdateAccount(id: string, name: string, clientId: string, enabled: bool) returns (r: Outcome<Account>)
      modifies this
      ensures id !in old(db).accounts ==> r == Refused && db == old(db)
      ensures id in old(db).accounts ==>
                var a := Asked(old(db).accounts[id], name, clientId, enabled);
                var ok := ValidName(a.name) && (Lower(Trim(clientId)) != "" ==> ValidClientId(a.clientId))
                          && NameFree(old(db).accounts, a.name, Some(id), fold)
                          && ClientIdFree(old(db).accounts, a.clientId, Some(id));
                && r == (if ok then Done(a) else Refused)
                && db == if ok then Renamed(old(db), id, a, fold) else old(db)
      ensures r.Done? ==>
                && id in old(db).accounts && db.accounts == old(db).accounts[id := r.value]
                && r.value.enabled == enabled && r.value.name == Trim(name)
                && r.value.clientId == if Trim(clientId) == "" then old(db).accounts[id].clientId else Lower(Trim(clientId))
      ensures r.Done? && ValidClientId(old(db).accounts[id].clientId) ==> Acceptable(old(db), r.value, Some(id), fold)
      ensures r.Done? && ValidClientId(old(db).accounts[id].clientId) ==>
                forall pending :: Next(Sys(old(db), pending), Update(id, r.value), Sys(db, pending), fold)
    {
      if id !in db.accounts {
        return Refused;
      }
      var current := db.accounts[id];
      TrimIsTrimmed(name);
      assert |Lower(Trim(clientId))| == |Trim(clientId)|;
      var a := Asked(current, name, clientId, enabled);
      if !ValidName(a.name) || (Lower(Trim(clientId)) != "" && !ValidClientId(a.clientId))
         || !NameFree(db.accounts, a.name, Some(id), fold) || !ClientIdFree(db.accounts, a.clientId, Some(id)) {
        return Refused;
      }
      db := db.(accounts := db.accounts[id := a]);
      if current.name != a.name {
        RewriteGroupEntries(current.name, Some(a.name));
      }
      return Done(a);
    }

    method DeleteAccount(id: string) returns (existed: bool)
      modifies this
      ensures existed <==> id in old(db).accounts
      ensures db == if id in old(db).accounts then Removed(old(db), id, fold) else old(db)
      ensures existed ==> forall pending :: Next(Sys(old(db), pending), Delete(id), Sys(db, pending), fold)
    {
      if id !in db.accounts {
        return false;
      }
      var name := db.accounts[id].name;
      db := db.(accounts := db.accounts - {id});
      RewriteGroupEntries(name, None);
      return true;
    }

    /**
     The check of a group's clients: an account entry is to be stored under the
     account's own spelling, one that names no account refuses the whole group.
     `known` is what the console accepts as other entries.
     */
    method CheckClients(clients: seq<string>, known: string -> bool) returns (r: Option<seq<string>>)
      ensures r.Some? <==> forall i | 0 <= i < |clients| :: Accepted(clients[i], db.accounts, known)
      ensures r.Some? ==> StoredList(clients, r.value, db.accounts)
      ensures r.Some? ==> forall group, enabled, pending ::
                var p := Checked(group, enabled, r.value);
                Next(Sys(db, pending), Check(clients, p), Sys(db, pending + {p}), fold)
    {
      var stored := [];
      for i := 0 to |clients|
        invariant |stored| == i
        invariant forall k | 0 <= k < i :: Accepted(clients[k], db.accounts, known) && StoredAs(clients[k], stored[k], db.accounts)
      {
        var entry := StoreEntry(clients[i], db.accounts, known);
        if entry.None? {
          return None;
        }
        stored := stored + [entry.value];
      }
      r := Some(stored);
    }

    /** The write of a group whose clients were checked before. */
    method WriteGroup(id: string, enabled: bool, stored: seq<string>)
      modifies this
      ensures db == Written(old(db), Checked(id, enabled, stored))
      ensures forall pending | Checked(id, enabled, stored) in pending ::
                var p := Checked(id, enabled, stored);
                Next(Sys(old(db), pending), Write(p), Sys(db, pending - {p}), fold)
    {
      db := db.(groups := db.groups[id := Group(enabled, Some(stored))]);
    }
  }

  /** A group whose clients were checked and that is still to be written. */
  datatype Checked = Checked(group: string, enabled: bool, stored: seq<string>)

  function Written(db: Db, p: Checked): Db {
    db.(groups := db.groups[p.group := Group(p.enabled, Some(p.stored))])
  }

  predicate StoredList(clients: seq<string>, stored: seq<string>, accounts: map<string, Account>) {
    |stored| == |clients| && forall i | 0 <= i < |clients| :: StoredAs(clients[i], stored[i], accounts)
  }

  /** One client entry, as it is to be stored. */
  method StoreEntry(e: string, accounts: map<string, Account>, known: string -> bool) returns (r: Option<string>)
    ensures r.Some? <==> Accepted(e, accounts, known)
    ensures r.Some? ==> StoredAs(e, r.value, accounts)
  {
    var named := AccountEntry(e);
    if named.None? {
      return if known(e) then Some(e) else None;
    }
    if a :| a in accounts && SameIgnoringCase(accounts[a].name, named.value) {
      r := Some(Entry(accounts[a].name));
    } else {
      r := None;
    }
  }

  /** An account entry names an account there is; another is one the console knows. */
  predicate Accepted(e: string, accounts: map<string, Account>, known: string -> bool) {
    match AccountEntry(e)
    case None => known(e)
    case Some(name) => exists a :: a in accounts && SameIgnoringCase(accounts[a].name, name)
  }

  /** What an entry typed as `e` is stored as. */
  predicate StoredAs(e: string, stored: string, accounts: map<string, Account>) {
    match AccountEntry(e)
    case None => stored == e
    case Some(name) => exists a :: a in accounts && SameIgnoringCase(accounts[a].name, name) && stored == Entry(accounts[a].name)
  }

  // ---- Naming and matching ------------------------------------------------------------------

  lemma AccountsDiffer(accounts: map<string, Account>, i: string, j: string, fold: char -> char)
    requires GoodAccounts(accounts, fold) && i in accounts && j in accounts
    ensures SameName(accounts[i].name, accounts[j].name, fold) <==> i == j
  {
  }

  /** The entry of one account names that account and no other, and is matched as that account's. */
  lemma EntryOf(accounts: map<string, Account>, i: string, j: string, fold: char -> char)
    requires Folding(fold) && GoodAccounts(accounts, fold) && i in accounts && j in accounts
    ensures Names(Entry(accounts[i].name), accounts[j].name, fold) <==> i == j
    ensures Matches(Entry(accounts[i].name), accounts[j].name, fold) <==> i == j
  {
    AccountsDiffer(accounts, i, j, fold);
    StoredEntry(accounts[i].name, accounts[j].name, fold);
  }

  /** For a tight entry, being matched is naming. */
  lemma MatchIsName(e: string, name: string, fold: char -> char)
    requires Folding(fold) && name != "" && Trimmed(name) && Tight(e)
    ensures Matches(e, name, fold) <==> Names(e, name, fold)
  {
    MatchesExactly(e, name, fold);
  }

  lemma EntryIsTight(name: string)
    requires name != "" && Trimmed(name)
    ensures Tight(Entry(name))
  {
    var e := Entry(name);
    assert e[0] == PREFIX[0] && e[|e| - 1] == name[|name| - 1];
    TrimOfTrimmed(e);
    assert e[|PREFIX|..] == name;
  }

  // ---- Names stay distinct -------------------------------------------------------------------

  predicate Acceptable(db: Db, a: Account, except: Option<string>, fold: char -> char) {
    && ValidName(a.name) && Trimmed(a.name) && ValidClientId(a.clientId)
    && NameFree(db.accounts, a.name, except, fold) && ClientIdFree(db.accounts, a.clientId, except)
  }

  /** Storing an acceptable account, new or changed, keeps names and client IDs distinct. */
  lemma StoringKeepsAccounts(db: Db, id: string, a: Account, fold: char -> char)
    requires GoodAccounts(db.accounts, fold) && Acceptable(db, a, Some(id), fold)
    ensures GoodAccounts(db.accounts[id := a], fold)
  {
    var after := db.accounts[id := a];
    forall i, j | i in after && j in after && i != j
      ensures !SameName(after[i].name, after[j].name, fold) && after[i].clientId != after[j].clientId
    {
      if i == id {
        assert !SameName(db.accounts[j].name, a.name, fold);
      }
    }
  }

  /** For an id not in use, free of all is free of all others. */
  lemma NewIsAcceptable(db: Db, id: string, a: Account, fold: char -> char)
    requires id !in db.accounts && Acceptable(db, a, None, fold)
    ensures Acceptable(db, a, Some(id), fold)
  {
  }

  // ---- Renaming ------------------------------------------------------------------------------

  /** What an update makes of one entry. */
  function AfterRename(db: Db, id: string, a: Account, e: string, fold: char -> char): string
    requires id in db.accounts
  {
    if db.accounts[id].name != a.name && Matches(e, db.accounts[id].name, fold) then Entry(a.name) else e
  }

  /**
   Whatever else the tables hold: after an update a tight entry names the same accounts
   as before, and besides the updated account if it was waiting under that name for one.
   */
  lemma RenameKeepsNaming(db: Db, id: string, a: Account, fold: char -> char, e: string, j: string)
    requires Folding(fold) && GoodAccounts(db.accounts, fold) && id in db.accounts && j in db.accounts
    requires Acceptable(db, a, Some(id), fold) && Tight(e)
    ensures Names(AfterRename(db, id, a, e, fold), db.accounts[id := a][j].name, fold) <==>
              Names(e, db.accounts[j].name, fold) || (j == id && Names(e, a.name, fold))
  {
    var was := db.accounts[id].name;
    MatchIsName(e, was, fold);
    StoringKeepsAccounts(db, id, a, fold);
    if was != a.name && Matches(e, was, fold) {
      EntryOf(db.accounts[id := a], id, j, fold);
      SameNamed(e, was, db.accounts[j].name, fold);
      AccountsDiffer(db.accounts, id, j, fold);
    } else if j == id && was != a.name {
      assert !Names(e, was, fold);
    }
  }

  /** An entry that names one account's name names another exactly when they are the same. */
  lemma SameNamed(e: string, a: string, b: string, fold: char -> char)
    requires Names(e, a, fold)
    ensures Names(e, b, fold) <==> SameName(a, b, fold)
  {
  }

  /**
   Renaming moves no reference: where every entry resolves, the entry at every place of
   every group names the same accounts after as before, and still resolves.
   */
  lemma RenameKeepsReferences(db: Db, id: string, a: Account, fold: char -> char, e: string, j: string)
    requires Folding(fold) && GoodAccounts(db.accounts, fold) && id in db.accounts && j in db.accounts
    requires Acceptable(db, a, Some(id), fold) && Resolves(e, db.accounts)
    ensures var after := AfterRename(db, id, a, e, fold);
            && (Names(e, db.accounts[j].name, fold) <==> Names(after, db.accounts[id := a][j].name, fold))
            && Resolves(after, db.accounts[id := a])
  {
    ResolvedIsTight(e, db.accounts, fold);
    RenameKeepsNaming(db, id, a, fold, e, j);
    RenameResolves(db, id, a, fold, e);
    if Names(e, a.name, fold) {
      var k :| k in db.accounts && e == Entry(db.accounts[k].name);
      StoredEntry(db.accounts[k].name, a.name, fold);
      assert k == id;
      EntryOf(db.accounts, id, id, fold);
    }
  }

  lemma ResolvedIsTight(e: string, accounts: map<string, Account>, fold: char -> char)
    requires GoodAccounts(accounts, fold) && Resolves(e, accounts)
    ensures Tight(e)
  {
    if AccountEntry(e).Some? {
      var k :| k in accounts && e == Entry(accounts[k].name);
      EntryIsTight(accounts[k].name);
    }
  }

  lemma RenameResolves(db: Db, id: string, a: Account, fold: char -> char, e: string)
    requires Folding(fold) && GoodAccounts(db.accounts, fold) && id in db.accounts
    requires Acceptable(db, a, Some(id), fold) && Resolves(e, db.accounts)
    ensures Resolves(AfterRename(db, id, a, e, fold), db.accounts[id := a])
  {
    var accounts, renamed := db.accounts[id := a], AfterRename(db, id, a, e, fold);
    if renamed == Entry(a.name) {
      ResolvesAs(renamed, accounts, id);
    } else if AccountEntry(e).Some? {
      var k :| k in db.accounts && e == Entry(db.accounts[k].name);
      EntryOf(db.accounts, k, id, fold);
      ResolvesAs(renamed, accounts, k);
    }
  }

  lemma ResolvesAs(e: string, accounts: map<string, Account>, k: string)
    requires k in accounts && e == Entry(accounts[k].name)
    ensures Resolves(e, accounts)
  {
  }

  /** A group after a rename, place by place. */
  lemma RenameAt(db: Db, id: string, a: Account, fold: char -> char, g: string, i: nat)
    requires id in db.accounts && g in db.groups && db.groups[g].clients.Some?
    ensures var before, after := db.groups[g], Renamed(db, id, a, fold).groups[g];
            && after.clients.Some? && |after.clients.value| == |before.clients.value| && after.enabled == before.enabled
            && (i < |before.clients.value| ==>
                  after.clients.value[i] == AfterRename(db, id, a, before.clients.value[i], fold))
  {
    if db.accounts[id].name != a.name {
      GroupRenamedAt(db.groups[g], db.accounts[id].name, a.name, fold, i);
    }
  }

  lemma GroupRenamedAt(group: Group, was: string, to: string, fold: char -> char, i: nat)
    requires group.clients.Some?
    ensures var after := RewrittenGroup(group, was, Some(to), fold);
            && after.clients.Some? && |after.clients.value| == |group.clients.value| && after.enabled == group.enabled
            && (i < |group.clients.value| ==>
                  after.clients.value[i] == if Matches(group.clients.value[i], was, fold) then Entry(to) else group.clients.value[i])
  {
    var entries := group.clients.value;
    if entries != [] {
      RenamedAt(entries, was, to, fold, if i < |entries| then i else 0);
    }
  }

  /** The entries after an update are those before it, each updated. */
  lemma RenamedEntry(db: Db, id: string, a: Account, fold: char -> char, g: string, e: string) returns (before: string)
    requires id in db.accounts && HasEntry(Renamed(db, id, a, fold), g, e)
    ensures HasEntry(db, g, before) && e == AfterRename(db, id, a, before, fold)
  {
    var entries := Renamed(db, id, a, fold).groups[g].clients.value;
    var i :| 0 <= i < |entries| && entries[i] == e;
    RenameAt(db, id, a, fold, g, i);
    before := db.groups[g].clients.value[i];
  }

  /** An update keeps the tables well formed: names distinct ignoring case, every reference resolved. */
  lemma RenameKeepsWellFormed(db: Db, id: string, a: Account, fold: char -> char)
    requires Folding(fold) && WellFormed(db, fold) && id in db.accounts && Acceptable(db, a, Some(id), fold)
    ensures WellFormed(Renamed(db, id, a, fold), fold)
  {
    StoringKeepsAccounts(db, id, a, fold);
    var after := Renamed(db, id, a, fold);
    forall g, e | HasEntry(after, g, e)
      ensures Resolves(e, after.accounts)
    {
      var before := RenamedEntry(db, id, a, fold, g, e);
      RenameResolves(db, id, a, fold, before);
    }
  }

  // ---- Deleting ------------------------------------------------------------------------------

  /**
   Whatever else the tables hold: deleting an account takes exactly the entries that name
   it out of every group of tight entries, keeping the others in their order; a group
   that loses its last client is turned off, and no other group changes state.
   */
  lemma DeleteDropsEntries(db: Db, id: string, fold: char -> char, g: string)
    requires Folding(fold) && id in db.accounts && db.accounts[id].name != "" && Trimmed(db.accounts[id].name)
    requires g in db.groups && db.groups[g].clients.Some? && TightList(db.groups[g].clients.value)
    ensures var before, after := db.groups[g], Removed(db, id, fold).groups[g];
            && after.clients == Some(WithoutNaming(before.clients.value, db.accounts[id].name, fold))
            && (after.enabled <==> before.enabled && (before.clients.value != [] ==> after.clients.value != []))
  {
    var entries, name := db.groups[g].clients.value, db.accounts[id].name;
    forall e | e in entries
      ensures Matches(e, name, fold) <==> Names(e, name, fold)
    {
      MatchIsName(e, name, fold);
    }
    WithoutNamingIs(entries, name, fold);
  }

  function WithoutNaming(entries: seq<string>, name: string, fold: char -> char): (rest: seq<string>)
    ensures forall e :: e in rest <==> e in entries && !Names(e, name, fold)
  {
    if entries == [] then []
    else
      assert entries == [entries[0]] + entries[1..];
      (if Names(entries[0], name, fold) then [] else [entries[0]]) + WithoutNaming(entries[1..], name, fold)
  }

  lemma {:induction false} WithoutNamingIs(entries: seq<string>, name: string, fold: char -> char)
    requires forall e | e in entries :: Matches(e, name, fold) <==> Names(e, name, fold)
    ensures WithoutNaming(entries, name, fold) == Rewritten(entries, name, None, fold)
    ensures (forall e | e in entries :: !Matches(e, name, fold)) ==> WithoutNaming(entries, name, fold) == entries
    decreases |entries|
  {
    if entries != [] {
      var first, rest := entries[0], entries[1..];
      assert entries == [first] + rest && first in entries;
      WithoutNamingIs(rest, name, fold);
      assert RewrittenEntry(first, name, None, fold) == if Names(first, name, fold) then [] else [first];
    }
  }

  /** The entries after a deletion were there before it. */
  lemma RemainingEntry(db: Db, id: string, fold: char -> char, g: string, e: string)
    requires id in db.accounts && HasEntry(Removed(db, id, fold), g, e)
    ensures HasEntry(db, g, e) && !Matches(e, db.accounts[id].name, fold)
  {
    DroppedAre(db.groups[g].clients.value, db.accounts[id].name, fold);
  }

  lemma DeleteKeepsWellFormed(db: Db, id: string, fold: char -> char)
    requires Folding(fold) && WellFormed(db, fold) && id in db.accounts
    ensures WellFormed(Removed(db, id, fold), fold)
  {
    var after := Removed(db, id, fold);
    forall g, e | HasEntry(after, g, e)
      ensures Resolves(e, after.accounts)
    {
      RemainingEntry(db, id, fold, g, e);
      StillResolves(db.accounts, id, fold, e);
    }
  }

  /** An entry that is not the deleted account's resolves without it. */
  lemma StillResolves(accounts: map<string, Account>, id: string, fold: char -> char, e: string)
    requires Folding(fold) && GoodAccounts(accounts, fold) && id in accounts
    requires Resolves(e, accounts) && !Matches(e, accounts[id].name, fold)
    ensures Resolves(e, accounts - {id})
  {
    if AccountEntry(e).Some? {
      var k := OtherAccount(accounts, id, fold, e);
      assert k in accounts - {id} && e == Entry((accounts - {id})[k].name);
    }
  }

  lemma OtherAccount(accounts: map<string, Account>, id: string, fold: char -> char, e: string) returns (k: string)
    requires Folding(fold) && GoodAccounts(accounts, fold) && id in accounts && !Matches(e, accounts[id].name, fold)
    requires exists k :: k in accounts && e == Entry(accounts[k].name)
    ensures k in accounts && k != id && e == Entry(accounts[k].name)
  {
    k :| k in accounts && e == Entry(accounts[k].name);
    EntryOf(accounts, k, id, fold);
  }

  // ---- Creating ------------------------------------------------------------------------------

  lemma CreateKeepsWellFormed(db: Db, id: string, a: Account, fold: char -> char)
    requires WellFormed(db, fold) && id !in db.accounts && Acceptable(db, a, None, fold)
    ensures WellFormed(db.(accounts := db.accounts[id := a]), fold)
  {
    NewIsAcceptable(db, id, a, fold);
    StoringKeepsAccounts(db, id, a, fold);
    var after := db.(accounts := db.accounts[id := a]);
    forall g, e | HasEntry(after, g, e)
      ensures Resolves(e, after.accounts)
    {
      assert HasEntry(db, g, e);
      ResolvesMore(e, db.accounts, id, a);
    }
  }

  lemma ResolvesMore(e: string, accounts: map<string, Account>, id: string, a: Account)
    requires Resolves(e, accounts) && id !in accounts
    ensures Resolves(e, accounts[id := a])
  {
    if AccountEntry(e).Some? {
      var k :| k in accounts && e == Entry(accounts[k].name);
      assert k in accounts[id := a] && e == Entry(accounts[id := a][k].name);
    }
  }

  // ---- Every run ----------------------------------------------------------------------------

  /** The tables, and the groups checked but not written yet: others can come in between. */
  datatype Sys = Sys(db: Db, pending: set<Checked>)

  datatype Step =
    | Create(id: string, account: Account)
    | Update(id: string, account: Account)
    | Delete(id: string)
    | Check(clients: seq<string>, p: Checked)
    | Write(p: Checked)

  /** The operations that go through; a refused one changes nothing. */
  ghost predicate Next(s: Sys, step: Step, s': Sys, fold: char -> char) {
    var db := s.db;
    match step
    case Create(id, a) =>
      id !in db.accounts && Acceptable(db, a, None, fold) && s' == s.(db := db.(accounts := db.accounts[id := a]))
    case Update(id, a) =>
      id in db.accounts && Acceptable(db, a, Some(id), fold) && s' == s.(db := Renamed(db, id, a, fold))
    case Delete(id) => id in db.accounts && s' == s.(db := Removed(db, id, fold))
    case Check(clients, p) => StoredList(clients, p.stored, db.accounts) && s' == s.(pending := s.pending + {p})
    case Write(p) => p in s.pending && s' == Sys(Written(db, p), s.pending - {p})
  }

  ghost predicate IsRun(run: seq<Sys>, steps: seq<Step>, fold: char -> char) {
    && |run| == |steps| + 1 && run[0] == Sys(Db(map[], map[]), {})
    && forall i | 0 <= i < |steps| :: Next(run[i], steps[i], run[i + 1], fold)
  }

  lemma NextOf(run: seq<Sys>, steps: seq<Step>, fold: char -> char, i: nat)
    requires IsRun(run, steps, fold) && i < |steps|
    ensures Next(run[i], steps[i], run[i + 1], fold)
  {
  }

  // ---- In every run: names, and the form of entries ------------------------------------------

  lemma StepKeepsAccounts(s: Sys, step: Step, s': Sys, fold: char -> char)
    requires GoodAccounts(s.db.accounts, fold) && Next(s, step, s', fold)
    ensures GoodAccounts(s'.db.accounts, fold)
  {
    match step
    case Create(id, a) =>
      NewIsAcceptable(s.db, id, a, fold);
      StoringKeepsAccounts(s.db, id, a, fold);
    case Update(id, a) => StoringKeepsAccounts(s.db, id, a, fold);
    case _ =>
  }

  /** Over every run, account names stay distinct ignoring case, and client IDs distinct. */
  lemma {:induction false} RunKeepsNamesDistinct(run: seq<Sys>, steps: seq<Step>, fold: char -> char, n: nat)
    requires IsRun(run, steps, fold) && n < |run|
    ensures GoodAccounts(run[n].db.accounts, fold)
    decreases n
  {
    if n > 0 {
      RunKeepsNamesDistinct(run, steps, fold, n - 1);
      NextOf(run, steps, fold, n - 1);
      StepKeepsAccounts(run[n - 1], steps[n - 1], run[n], fold);
    }
  }

  ghost predicate TightSys(s: Sys) {
    TightGroups(s.db.groups) && forall p | p in s.pending :: TightList(p.stored)
  }

  lemma CheckedIsTight(clients: seq<string>, stored: seq<string>, accounts: map<string, Account>, fold: char -> char)
    requires GoodAccounts(accounts, fold) && StoredList(clients, stored, accounts)
    ensures TightList(stored)
  {
    forall i | 0 <= i < |stored|
      ensures Tight(stored[i])
    {
      assert StoredAs(clients[i], stored[i], accounts);
      if AccountEntry(clients[i]).Some? {
        var a :| a in accounts && SameIgnoringCase(accounts[a].name, AccountEntry(clients[i]).value) && stored[i] == Entry(accounts[a].name);
        EntryIsTight(accounts[a].name);
      }
    }
  }

  lemma RenameKeepsTight(db: Db, id: string, a: Account, fold: char -> char)
    requires id in db.accounts && TightGroups(db.groups) && a.name != "" && Trimmed(a.name)
    ensures TightGroups(Renamed(db, id, a, fold).groups)
  {
    var after := Renamed(db, id, a, fold).groups;
    EntryIsTight(a.name);
    forall g, i: nat | g in after && after[g].clients.Some? && i < |after[g].clients.value|
      ensures Tight(after[g].clients.value[i])
    {
      RenameAt(db, id, a, fold, g, i);
      assert TightList(db.groups[g].clients.value);
    }
  }

  lemma DeleteKeepsTight(db: Db, id: string, fold: char -> char)
    requires id in db.accounts && TightGroups(db.groups)
    ensures TightGroups(Removed(db, id, fold).groups)
  {
    var after := Removed(db, id, fold);
    forall g, i: nat | g in after.groups && after.groups[g].clients.Some? && i < |after.groups[g].clients.value|
      ensures Tight(after.groups[g].clients.value[i])
    {
      var e := after.groups[g].clients.value[i];
      RemainingEntry(db, id, fold, g, e);
      var k :| 0 <= k < |db.groups[g].clients.value| && db.groups[g].clients.value[k] == e;
      assert TightList(db.groups[g].clients.value);
    }
  }

  lemma StepKeepsTight(s: Sys, step: Step, s': Sys, fold: char -> char)
    requires GoodAccounts(s.db.accounts, fold) && TightSys(s) && Next(s, step, s', fold)
    ensures TightSys(s')
  {
    match step
    case Create(_, _) =>
    case Update(id, a) => RenameKeepsTight(s.db, id, a, fold);
    case Delete(id) => DeleteKeepsTight(s.db, id, fold);
    case Check(clients, p) => CheckedIsTight(clients, p.stored, s.db.accounts, fold);
    case Write(p) =>
      assert TightList(p.stored);
  }

  /** Over every run, nothing but the name follows the prefix in any account entry. */
  lemma {:induction false} RunKeepsTight(run: seq<Sys>, steps: seq<Step>, fold: char -> char, n: nat)
    requires IsRun(run, steps, fold) && n < |run|
    ensures TightSys(run[n])
    decreases n
  {
    if n > 0 {
      RunKeepsTight(run, steps, fold, n - 1);
      RunKeepsNamesDistinct(run, steps, fold, n - 1);
      NextOf(run, steps, fold, n - 1);
      StepKeepsTight(run[n - 1], steps[n - 1], run[n], fold);
    }
  }

  /**
   In every run, stale writes or not, an update leaves every entry at its place of its
   group, naming the accounts it named, and besides the updated account if the entry was
   waiting under that name for one.
   */
  lemma RunRenameKeepsReferences(run: seq<Sys>, steps: seq<Step>, fold: char -> char, n: nat, g: string, i: nat, j: string)
    requires Folding(fold) && IsRun(run, steps, fold) && n < |steps| && steps[n].Update?
    requires g in run[n].db.groups && run[n].db.groups[g].clients.Some? && i < |run[n].db.groups[g].clients.value|
    requires j in run[n].db.accounts
    ensures g in run[n + 1].db.groups && run[n + 1].db.groups[g].clients.Some? && j in run[n + 1].db.accounts
    ensures |run[n + 1].db.groups[g].clients.value| == |run[n].db.groups[g].clients.value|
    ensures var e := run[n].db.groups[g].clients.value[i];
            Names(run[n + 1].db.groups[g].clients.value[i], run[n + 1].db.accounts[j].name, fold) <==>
              Names(e, run[n].db.accounts[j].name, fold) || (j == steps[n].id && Names(e, steps[n].account.name, fold))
  {
    var db, id, a := run[n].db, steps[n].id, steps[n].account;
    RunKeepsNamesDistinct(run, steps, fold, n);
    RunKeepsTight(run, steps, fold, n);
    NextOf(run, steps, fold, n);
    assert TightList(db.groups[g].clients.value);
    RenameAt(db, id, a, fold, g, i);
    RenameKeepsNaming(db, id, a, fold, db.groups[g].clients.value[i], j);
  }

  /**
   In every run, stale writes or not, a deletion takes exactly the entries that name the
   account out of every group, in order, and turns a group it empties off.
   */
  lemma RunDeleteDropsEntries(run: seq<Sys>, steps: seq<Step>, fold: char -> char, n: nat, g: string)
    requires Folding(fold) && IsRun(run, steps, fold) && n < |steps| && steps[n].Delete?
    requires g in run[n].db.groups && run[n].db.groups[g].clients.Some?
    ensures steps[n].id in run[n].db.accounts && g in run[n + 1].db.groups
    ensures var before, after := run[n].db.groups[g], run[n + 1].db.groups[g];
            && after.clients == Some(WithoutNaming(before.clients.value, run[n].db.accounts[steps[n].id].name, fold))
            && (after.enabled <==> before.enabled && (before.clients.value != [] ==> after.clients.value != []))
  {
    RunKeepsNamesDistinct(run, steps, fold, n);
    RunKeepsTight(run, steps, fold, n);
    NextOf(run, steps, fold, n);
    assert TightList(run[n].db.groups[g].clients.value);
    DeleteDropsEntries(run[n].db, steps[n].id, fold, g);
  }

  // ---- In every run: when every entry resolves -------------------------------------------------

  /** Every account entry of a checked list is still the stored entry of an account there is. */
  predicate Fresh(p: Checked, accounts: map<string, Account>) {
    forall e | e in p.stored :: Resolves(e, accounts)
  }

  /** A list is fresh when it is checked. */
  lemma CheckedIsFresh(clients: seq<string>, p: Checked, accounts: map<string, Account>)
    requires StoredList(clients, p.stored, accounts)
    ensures Fresh(p, accounts)
  {
    forall e | e in p.stored
      ensures Resolves(e, accounts)
    {
      var i :| 0 <= i < |p.stored| && p.stored[i] == e;
      assert StoredAs(clients[i], p.stored[i], accounts);
    }
  }

  /** Writing a checked group keeps every entry resolved exactly when its list is still fresh. */
  lemma WriteKeepsExactly(db: Db, p: Checked)
    requires AllResolve(db)
    ensures AllResolve(Written(db, p)) <==> Fresh(p, db.accounts)
  {
    var after := Written(db, p);
    if AllResolve(after) {
      forall e | e in p.stored
        ensures Resolves(e, db.accounts)
      {
        assert HasEntry(after, p.group, e);
      }
    }
    if Fresh(p, db.accounts) {
      forall g, e | HasEntry(after, g, e)
        ensures Resolves(e, after.accounts)
      {
        if g != p.group {
          assert HasEntry(db, g, e);
        }
      }
    }
  }

  /** A rename between check and write leaves an entry that names no account. */
  lemma RenamedInBetween(db: Db, id: string, a: Account, p: Checked, fold: char -> char)
    requires Folding(fold) && WellFormed(db, fold) && id in db.accounts && Acceptable(db, a, Some(id), fold)
    requires !SameName(a.name, db.accounts[id].name, fold) && p.stored == [Entry(db.accounts[id].name)]
    ensures Fresh(p, db.accounts) && !AllResolve(Written(Renamed(db, id, a, fold), p))
  {
    var entry, after := Entry(db.accounts[id].name), Renamed(db, id, a, fold);
    ResolvesAs(entry, db.accounts, id);
    StoredEntry(db.accounts[id].name, db.accounts[id].name, fold);
    RenameKeepsWellFormed(db, id, a, fold);
    NoEntryLeft(db.accounts, id, a, after.accounts, fold);
    StaleEntry(p, entry, after.accounts);
    WriteKeepsExactly(after, p);
  }

  lemma StaleEntry(p: Checked, entry: string, accounts: map<string, Account>)
    requires entry in p.stored && AccountEntry(entry).Some? && forall k | k in accounts :: entry != Entry(accounts[k].name)
    ensures !Fresh(p, accounts)
  {
    assert !Resolves(entry, accounts);
  }

  /** After a rename to another name, the old entry is no account's stored entry. */
  lemma NoEntryLeft(accounts: map<string, Account>, id: string, a: Account, after: map<string, Account>, fold: char -> char)
    requires GoodAccounts(accounts, fold) && id in accounts && !SameName(a.name, accounts[id].name, fold)
    requires after == accounts[id := a]
    ensures forall k | k in after :: Entry(accounts[id].name) != Entry(after[k].name)
  {
    forall k | k in after
      ensures Entry(accounts[id].name) != Entry(after[k].name)
    {
      EntriesDiffer(accounts[id].name, after[k].name);
      if k != id {
        AccountsDiffer(accounts, k, id, fold);
      }
    }
  }

  lemma EntriesDiffer(a: string, b: string)
    ensures Entry(a) == Entry(b) <==> a == b
  {
    assert Entry(a)[|PREFIX|..] == a && Entry(b)[|PREFIX|..] == b;
  }

  lemma StepKeepsExactly(s: Sys, step: Step, s': Sys, fold: char -> char)
    requires Folding(fold) && WellFormed(s.db, fold) && Next(s, step, s', fold)
    ensures AllResolve(s'.db) <==> (step.Write? ==> Fresh(step.p, s.db.accounts))
  {
    match step
    case Create(id, a) => CreateKeepsWellFormed(s.db, id, a, fold);
    case Update(id, a) => RenameKeepsWellFormed(s.db, id, a, fold);
    case Delete(id) => DeleteKeepsWellFormed(s.db, id, fold);
    case Check(_, _) =>
    case Write(p) => WriteKeepsExactly(s.db, p);
  }

  /** Each group in the first `n` steps was written while its list was fresh. */
  predicate FreshWrites(run: seq<Sys>, steps: seq<Step>, n: nat)
    requires |run| == |steps| + 1 && n <= |steps|
  {
    forall i | 0 <= i < n && steps[i].Write? :: Fresh(steps[i].p, run[i].db.accounts)
  }

  /** Every account entry of a group has resolved at all times up to `n`. */
  ghost predicate AlwaysResolves(run: seq<Sys>, n: nat)
    requires n < |run|
  {
    forall i | 0 <= i <= n :: AllResolve(run[i].db)
  }

  lemma ResolvesNext(run: seq<Sys>, steps: seq<Step>, fold: char -> char, n: nat)
    requires Folding(fold) && IsRun(run, steps, fold) && n < |steps| && AllResolve(run[n].db)
    ensures AllResolve(run[n + 1].db) <==> (steps[n].Write? ==> Fresh(steps[n].p, run[n].db.accounts))
  {
    RunKeepsNamesDistinct(run, steps, fold, n);
    NextOf(run, steps, fold, n);
    StepKeepsExactly(run[n], steps[n], run[n + 1], fold);
  }

  lemma FreshNext(run: seq<Sys>, steps: seq<Step>, n: nat)
    requires |run| == |steps| + 1 && n < |steps|
    ensures FreshWrites(run, steps, n + 1) <==>
              FreshWrites(run, steps, n) && (steps[n].Write? ==> Fresh(steps[n].p, run[n].db.accounts))
  {
  }

  lemma AlwaysNext(run: seq<Sys>, n: nat)
    requires n + 1 < |run|
    ensures AlwaysResolves(run, n + 1) <==> AlwaysResolves(run, n) && AllResolve(run[n + 1].db)
    ensures AlwaysResolves(run, n) ==> AllResolve(run[n].db)
  {
  }

  /**
   In a run, every account entry of a group is the stored entry of an account there is,
   at all times so far, if and only if each group was written while its checked list was
   still fresh.
   */
  lemma {:induction false} RunResolvesExactly(run: seq<Sys>, steps: seq<Step>, fold: char -> char, n: nat)
    requires Folding(fold) && IsRun(run, steps, fold) && n < |run|
    ensures FreshWrites(run, steps, n) <==> AlwaysResolves(run, n)
    decreases n
  {
    if n > 0 {
      RunResolvesExactly(run, steps, fold, n - 1);
      FreshNext(run, steps, n - 1);
      AlwaysNext(run, n - 1);
      if AlwaysResolves(run, n - 1) {
        ResolvesNext(run, steps, fold, n - 1);
      }
    }
  }
}
