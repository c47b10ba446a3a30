/** The user-management table: search filter, CSV export, form validation and the add, edit and
    delete transitions on the list of users. */
module UserManagement {
  import opened Wrappers
  import opened Strings
  import opened Seqs

  /** A row of the table. Ids are numbers; their text form is their decimal string.
      The two timestamps are opaque strings. */
  datatype User = User(id: nat, username: string, name: string, email: string, password: string,
                       createdOn: string, lastSession: string)

  /** The add/edit form's fields. */
  datatype Form = Form(username: string, name: string, email: string, password: string)

  const EMPTY_FORM: Form := Form("", "", "", "")

  function IdText(u: User): string {
    NatToString(u.id)
  }

  // ----- Search filter -----

  /** Whether user u is kept for the lower-cased query q: the id text contains q (no case
      folding on the id), or the lower-cased username, name or email contains q. */
  predicate MatchesQuery(u: User, q: string) {
    || Contains(IdText(u), q)
    || Contains(ToLower(u.username), q)
    || Contains(ToLower(u.name), q)
    || Contains(ToLower(u.email), q)
  }

  /** `filteredUsers`: the users matching the lower-cased search text, in table order. */
  function FilteredUsers(users: seq<User>, search: string): seq<User> {
    var q := ToLower(search);
    Filter(users, (u: User) => MatchesQuery(u, q))
  }

  /** The filtered list is an order-preserving subsequence of the users, holding exactly those
      that match the lower-cased query, each as many times as the list holds it. */
  lemma FilteredUsersSpec(users: seq<User>, search: string)
    ensures IsSubsequence(FilteredUsers(users, search), users)
    ensures forall u :: u in FilteredUsers(users, search) <==> u in users && MatchesQuery(u, ToLower(search))
    ensures forall u :: multiset(FilteredUsers(users, search))[u] ==
                        (if MatchesQuery(u, ToLower(search)) then multiset(users)[u] else 0)
  {
    var q := ToLower(search);
    var r := FilteredUsers(users, search);
    FilterCount(users, (u: User) => MatchesQuery(u, q));
    forall u | u in r ensures u in users && MatchesQuery(u, q) {
      var i :| 0 <= i < |r| && r[i] == u;
    }
    forall u | u in users && MatchesQuery(u, q) ensures u in r {
      var i :| 0 <= i < |users| && users[i] == u;
    }
  }

  /** An empty search keeps every user. */
  lemma EmptySearchKeepsAll(users: seq<User>)
    ensures FilteredUsers(users, "") == users
  {
    forall i | 0 <= i < |users| ensures MatchesQuery(users[i], ToLower("")) {
      assert ToLower("") == "";
      assert OccursAt(IdText(users[i]), "", 0);
    }
  }

  // ----- CSV export -----

  const CSV_HEADER: seq<string> := ["User ID", "User Name", "Email ID", "Created On", "Last Session"]

  /** The exported fields of one user. The "User Name" column holds the name. */
  function CsvFields(u: User): seq<string> {
    [IdText(u), u.name, u.email, u.createdOn, u.lastSession]
  }

  /** A field wrapped in double quotes, with nothing inside escaped. */
  function Quote(x: string): string {
    "\"" + x + "\""
  }

  function QuoteAll(fields: seq<string>): (r: seq<string>)
    ensures |r| == |fields|
    ensures forall i :: 0 <= i < |fields| ==> r[i] == Quote(fields[i])
  {
    if |fields| == 0 then [] else [Quote(fields[0])] + QuoteAll(fields[1..])
  }

  /** One CSV line: the quoted fields joined by commas. */
  function CsvLine(fields: seq<string>): string {
    Join(QuoteAll(fields), ",")
  }

  /** The line of each user, in order. */
  function UserLines(users: seq<User>): (r: seq<string>)
    ensures |r| == |users|
    ensures forall i :: 0 <= i < |users| ==> r[i] == CsvLine(CsvFields(users[i]))
  {
    if |users| == 0 then [] else [CsvLine(CsvFields(users[0]))] + UserLines(users[1..])
  }

  /** `exportCSV`'s text for the given (filtered) rows: a header line, then one line per user,
      lines joined by newlines. */
  function ExportCsv(users: seq<User>): string {
    Join([CsvLine(CSV_HEADER)] + UserLines(users), "\n")
  }

  /** A character outside the separator and the parts is outside their join. */
  lemma {:induction false} JoinAvoids(parts: seq<string>, sep: string, c: char)
    requires c !in sep
    requires forall i :: 0 <= i < |parts| ==> c !in parts[i]
    ensures c !in Join(parts, sep)
  {
    if |parts| > 1 {
      JoinAvoids(parts[1..], sep, c);
    }
  }

  /** Quoting adds only the two quotes. */
  lemma QuoteAvoids(x: string, c: char)
    requires c != '"' && c !in x
    ensures c !in Quote(x)
  {
    assert Quote(x) == ['"'] + x + ['"'];
  }

  /** A character outside every field, other than the comma and the quote, is outside the line. */
  lemma CsvLineAvoids(fields: seq<string>, c: char)
    requires c != ',' && c != '"'
    requires forall i :: 0 <= i < |fields| ==> c !in fields[i]
    ensures c !in CsvLine(fields)
  {
    JoinAvoids(QuoteAll(fields), ",", c);
  }

  /** When no field has a comma, splitting a line on commas gives back the quoted fields. */
  lemma CsvLineFields(fields: seq<string>)
    requires |fields| > 0
    requires forall i :: 0 <= i < |fields| ==> ',' !in fields[i]
    ensures Split(CsvLine(fields), ',') == QuoteAll(fields)
  {
    var q := QuoteAll(fields);
    forall i | 0 <= i < |q| ensures ',' !in q[i] {
      QuoteAvoids(fields[i], ',');
    }
    SplitJoin(q, ',');
  }

  /** No exported field of u holds a newline. */
  predicate NoNewlineFields(u: User) {
    forall i :: 0 <= i < 5 ==> '\n' !in CsvFields(u)[i]
  }

  lemma HeaderAvoidsNewline()
    ensures '\n' !in CsvLine(CSV_HEADER)
  {
    forall i | 0 <= i < |CSV_HEADER| ensures '\n' !in CSV_HEADER[i] {
    }
    CsvLineAvoids(CSV_HEADER, '\n');
  }

  /** When no exported field has a newline, the CSV text has exactly one line for the header and
      one per user, in order. */
  lemma ExportCsvLines(users: seq<User>)
    requires forall i :: 0 <= i < |users| ==> NoNewlineFields(users[i])
    ensures var lines := Split(ExportCsv(users), '\n');
      && |lines| == |users| + 1
      && lines[0] == CsvLine(CSV_HEADER)
      && forall i :: 0 <= i < |users| ==> lines[i + 1] == CsvLine(CsvFields(users[i]))
  {
    var lines := [CsvLine(CSV_HEADER)] + UserLines(users);
    HeaderAvoidsNewline();
    forall k | 0 <= k < |lines| ensures '\n' !in lines[k] {
      if k > 0 {
        assert lines[k] == CsvLine(CsvFields(users[k - 1]));
        assert NoNewlineFields(users[k - 1]);
        CsvLineAvoids(CsvFields(users[k - 1]), '\n');
      }
    }
    SplitJoin(lines, '\n');
  }

  /** What the export button saves: the CSV text of the rows the search currently shows. */
  function ExportedCsv(users: seq<User>, search: string): string {
    ExportCsv(FilteredUsers(users, search))
  }

  /** When no exported field has a newline, the saved CSV has the header line and then, in
      table order, one line per user matching the search, and no other line. */
  lemma ExportedCsvLines(users: seq<User>, search: string)
    requires forall i :: 0 <= i < |users| ==> NoNewlineFields(users[i])
    ensures var shown := FilteredUsers(users, search);
      var lines := Split(ExportedCsv(users, search), '\n');
      && |lines| == |shown| + 1
      && lines[0] == CsvLine(CSV_HEADER)
      && forall i :: 0 <= i < |shown| ==> lines[i + 1] == CsvLine(CsvFields(shown[i]))
  {
    var shown := FilteredUsers(users, search);
    FilteredUsersSpec(users, search);
    forall i | 0 <= i < |shown| ensures NoNewlineFields(shown[i]) {
      assert shown[i] in users;
    }
    ExportCsvLines(shown);
  }

  /** Nothing is escaped: a field holding a comma falls apart when the line is split on commas. */
  lemma UnescapedCommaSplitsField()
    ensures Split(CsvLine(["a,b"]), ',') == ["\"a", "b\""]
  {
    assert CsvLine(["a,b"]) == "\"a,b\"";
    var q, bq, cbq, acbq := "\"", "b\"", ",b\"", "a,b\"";
    assert q[1..] == "" && ['"'] + "" == q;
    assert Split(q, ',') == [q];
    assert bq[1..] == q && ['b'] + q == bq;
    assert Split(bq, ',') == [bq];
    assert cbq[1..] == bq;
    assert Split(cbq, ',') == ["", bq];
    assert acbq[1..] == cbq && ['a'] + "" == "a";
    assert Split(acbq, ',') == ["a", bq];
    assert "\"a,b\""[1..] == acbq && ['"'] + "a" == "\"a";
  }

  // ----- Form validation -----

  datatype Validation = Valid | Invalid(message: string)

  const FIELDS_REQUIRED: string := "All fields are required."
  const INVALID_EMAIL: string := "Invalid email address."

  /** A character of the regular-expression class `[^@\s]`. */
  predicate IsAddressChar(c: char) {
    c != '@' && !IsWhitespace(c)
  }

  /** The class `[^@\s]` on a whole string. */
  predicate NoAtOrSpace(s: string) {
    forall i :: 0 <= i < |s| ==> IsAddressChar(s[i])
  }

  /** The email test `/^[^@\s]+@[^@\s]+\.[^@\s]+$/.test(s)`, decided directly: the first '@'
      is not at the start, no other character is '@' or whitespace, and a '.' lies strictly
      after the character that follows the '@' and before the last character. */
  predicate IsEmail(s: string) {
    var i := IndexOf(s, '@');
    && 0 < i && i + 3 <= |s|
    && NoAtOrSpace(s[..i]) && NoAtOrSpace(s[i + 1..])
    && '.' in s[i + 2..|s| - 1]
  }

  /** The regular expression read as concatenation: three non-empty runs of characters other
      than '@' and whitespace, the first two separated by '@', the last two by '.'. */
  ghost predicate EmailShape(s: string) {
    exists a: string, b: string, c: string ::
      && s == a + "@" + b + "." + c
      && |a| > 0 && |b| > 0 && |c| > 0
      && NoAtOrSpace(a) && NoAtOrSpace(b) && NoAtOrSpace(c)
  }

  lemma NoAtOrSpaceSlice(t: string, lo: nat, hi: nat)
    requires lo <= hi <= |t| && NoAtOrSpace(t)
    ensures NoAtOrSpace(t[lo..hi])
  {
    assert forall k :: 0 <= k < hi - lo ==> t[lo..hi][k] == t[lo + k];
  }

  lemma ShapeWitness(s: string, a: string, b: string, c: string)
    requires s == a + "@" + b + "." + c
    requires |a| > 0 && |b| > 0 && |c| > 0
    requires NoAtOrSpace(a) && NoAtOrSpace(b) && NoAtOrSpace(c)
    ensures EmailShape(s)
  {
  }

  /** The shape's witnesses for an '@' at i and a '.' at i + 1 + m. */
  lemma SplitAtWitnesses(s: string, i: nat, m: nat)
    requires 0 < i && i + 1 + m + 1 < |s| && 0 < m
    requires s[i] == '@' && s[i + 1 + m] == '.'
    requires NoAtOrSpace(s[..i]) && NoAtOrSpace(s[i + 1..])
    ensures EmailShape(s)
  {
    var tail := s[i + 1..];
    var a, b, c := s[..i], tail[..m], tail[m + 1..];
    NoAtOrSpaceSlice(tail, 0, m);
    NoAtOrSpaceSlice(tail, m + 1, |tail|);
    assert tail[0..m] == b && tail[m + 1..|tail|] == c;
    assert tail == b + "." + c;
    assert s == a + "@" + tail;
    assert a + "@" + tail == a + "@" + b + "." + c;
    ShapeWitness(s, a, b, c);
  }

  lemma IsEmailHasShape(s: string)
    requires IsEmail(s)
    ensures EmailShape(s)
  {
    var i := IndexOf(s, '@');
    var dots := s[i + 2..|s| - 1];
    var k :| 0 <= k < |dots| && dots[k] == '.';
    SplitAtWitnesses(s, i, k + 1);
  }

  lemma NoAtOrSpaceConcat(x: string, y: string)
    requires NoAtOrSpace(x) && NoAtOrSpace(y)
    ensures NoAtOrSpace(x + y)
  {
    assert forall k :: 0 <= k < |x + y| ==> (x + y)[k] == if k < |x| then x[k] else y[k - |x|];
  }

  lemma ShapeIsEmailAt(s: string, a: string, b: string, c: string)
    requires s == a + "@" + b + "." + c
    requires |a| > 0 && |b| > 0 && |c| > 0
    requires NoAtOrSpace(a) && NoAtOrSpace(b) && NoAtOrSpace(c)
    ensures IsEmail(s)
  {
    var rest := b + "." + c;
    assert s == a + "@" + rest;
    var n := |a|;
    assert s[..n] == a && s[n] == '@' && s[n + 1..] == rest;
    IndexOfAt(s, '@', n);
    NoAtOrSpaceConcat(b, ".");
    NoAtOrSpaceConcat(b + ".", c);
    assert s[n + 2..|s| - 1][|b| - 1] == rest[|b|];
  }

  lemma ShapeIsEmail(s: string)
    requires EmailShape(s)
    ensures IsEmail(s)
  {
    var a: string, b: string, c: string :|
      && s == a + "@" + b + "." + c
      && |a| > 0 && |b| > 0 && |c| > 0
      && NoAtOrSpace(a) && NoAtOrSpace(b) && NoAtOrSpace(c);
    ShapeIsEmailAt(s, a, b, c);
  }

  /** The email test accepts exactly the strings of the regular expression's shape. */
  lemma IsEmailIffShape(s: string)
    ensures IsEmail(s) <==> EmailShape(s)
  {
    if IsEmail(s) {
      IsEmailHasShape(s);
    }
    if EmailShape(s) {
      ShapeIsEmail(s);
    }
  }

  /** `validateForm` as a value: the required-fields check first, then the email test. */
  function Validate(f: Form): Validation {
    if Trim(f.username) == "" || Trim(f.name) == "" || Trim(f.email) == "" || Trim(f.password) == ""
    then Invalid(FIELDS_REQUIRED)
    else if !IsEmail(f.email) then Invalid(INVALID_EMAIL)
    else Valid
  }

  predicate SomeFieldBlank(f: Form) {
    AllWhitespace(f.username) || AllWhitespace(f.name) || AllWhitespace(f.email) || AllWhitespace(f.password)
  }

  /** A form is rejected as incomplete exactly when a field is blank; otherwise it is rejected
      as a bad email exactly when the email (untrimmed) does not have the required shape; and
      it is valid exactly when no field is blank and the email has that shape. */
  lemma ValidateSpec(f: Form)
    ensures Validate(f) == Invalid(FIELDS_REQUIRED) <==> SomeFieldBlank(f)
    ensures Validate(f) == Invalid(INVALID_EMAIL) <==> !SomeFieldBlank(f) && !EmailShape(f.email)
    ensures Validate(f) == Valid <==> !SomeFieldBlank(f) && EmailShape(f.email)
  {
    TrimEmptyIffBlank(f.username);
    TrimEmptyIffBlank(f.name);
    TrimEmptyIffBlank(f.email);
    TrimEmptyIffBlank(f.password);
    IsEmailIffShape(f.email);
  }

  // ----- Add, edit, delete -----

  /** `Math.max(0, ...ids)`. */
  function MaxId(users: seq<User>): (m: nat)
    ensures forall i :: 0 <= i < |users| ==> users[i].id <= m
    ensures m == 0 || exists i :: 0 <= i < |users| && users[i].id == m
  {
    if |users| == 0 then 0
    else
      var rest := MaxId(users[1..]);
      assert forall i :: 1 <= i < |users| ==> users[i] == users[1..][i - 1];
      if users[0].id >= rest then users[0].id else rest
  }

  /** The id of a newly added user. */
  function NextId(users: seq<User>): nat {
    MaxId(users) + 1
  }

  /** The user built from the form; created and last-session are two separate clock readings. */
  function NewUser(id: nat, f: Form, created: string, last: string): User {
    User(id, f.username, f.name, f.email, f.password, created, last)
  }

  /** The list after adding the form as a new user with the two stamps: prepended. */
  function Added(users: seq<User>, f: Form, created: string, last: string): seq<User> {
    [NewUser(NextId(users), f, created, last)] + users
  }

  /** `{ ...u, ...form }`: the form's four fields over u's. */
  function Overwrite(u: User, f: Form): User {
    u.(username := f.username, name := f.name, email := f.email, password := f.password)
  }

  /** `users.map(u => u._id === id ? { ...u, ...form } : u)`. */
  function Edited(users: seq<User>, id: nat, f: Form): seq<User> {
    if |users| == 0 then []
    else [if users[0].id == id then Overwrite(users[0], f) else users[0]] + Edited(users[1..], id, f)
  }

  /** `users.filter(u => u._id !== deleteUserId)`; a null target keeps everyone. */
  function Deleted(users: seq<User>, target: Option<nat>): seq<User> {
    Filter(users, (u: User) => Some(u.id) != target)
  }

  /** Adding prepends one user whose id is above every existing id, so it is new; the old list
      follows unchanged, and the new user carries the form's fields and the two stamps. */
  lemma AddedSpec(users: seq<User>, f: Form, created: string, last: string)
    ensures var r := Added(users, f, created, last);
      && |r| == |users| + 1 && r[1..] == users
      && (forall i :: 0 <= i < |users| ==> users[i].id < r[0].id)
      && (forall i :: 0 <= i < |users| ==> IdText(users[i]) != IdText(r[0]))
      && r[0].username == f.username && r[0].name == f.name
      && r[0].email == f.email && r[0].password == f.password
      && r[0].createdOn == created && r[0].lastSession == last
  {
    var r := Added(users, f, created, last);
    forall i | 0 <= i < |users| ensures IdText(users[i]) != IdText(r[0]) {
      if IdText(users[i]) == IdText(r[0]) {
        NatToStringInjective(users[i].id, r[0].id);
      }
    }
  }

  /** Editing keeps the length; the users with the edited id get the form's four fields and
      keep their id and timestamps; every other user is unchanged. */
  lemma {:induction false} EditedSpec(users: seq<User>, id: nat, f: Form)
    ensures |Edited(users, id, f)| == |users|
    ensures forall i :: 0 <= i < |users| && users[i].id != id ==> Edited(users, id, f)[i] == users[i]
    ensures forall i :: 0 <= i < |users| && users[i].id == id ==>
      && Edited(users, id, f)[i] == Overwrite(users[i], f)
      && Edited(users, id, f)[i].id == id
      && Edited(users, id, f)[i].createdOn == users[i].createdOn
      && Edited(users, id, f)[i].lastSession == users[i].lastSession
  {
    if |users| > 0 {
      EditedSpec(users[1..], id, f);
      assert forall i :: 1 <= i < |users| ==> Edited(users, id, f)[i] == Edited(users[1..], id, f)[i - 1];
    }
  }

  /** Deleting removes exactly the users with the target id and keeps every copy of the others,
      in order; with no target it keeps everyone. */
  lemma DeletedSpec(users: seq<User>, target: Option<nat>)
    ensures IsSubsequence(Deleted(users, target), users)
    ensures forall u :: u in Deleted(users, target) <==> u in users && Some(u.id) != target
    ensures forall u :: multiset(Deleted(users, target))[u] ==
                        (if Some(u.id) != target then multiset(users)[u] else 0)
    ensures target.None? ==> Deleted(users, target) == users
  {
    var r := Deleted(users, target);
    FilterCount(users, (u: User) => Some(u.id) != target);
    forall u | u in r ensures u in users && Some(u.id) != target {
      var i :| 0 <= i < |r| && r[i] == u;
    }
    forall u | u in users && Some(u.id) != target ensures u in r {
      var i :| 0 <= i < |users| && users[i] == u;
    }
  }

  /** The table page's state and its handlers. */
  class UserTable {
    var users: seq<User>
    var search: string
    var showModal: bool
    var editUser: Option<User>
    var form: Form
    var formError: string
    var deleteUserId: Option<nat>

    constructor (initial: seq<User>)
      ensures users == initial && search == "" && !showModal && editUser == None
      ensures form == EMPTY_FORM && formError == "" && deleteUserId == None
    {
      users := initial;
      search := "";
      showModal := false;
      editUser := None;
      form := EMPTY_FORM;
      formError := "";
      deleteUserId := None;
    }

    /** `openAddModal`. */
    method OpenAddModal()
      modifies this`editUser, this`form, this`formError, this`showModal
      ensures editUser == None && form == EMPTY_FORM && formError == "" && showModal
    {
      editUser := None;
      form := EMPTY_FORM;
      formError := "";
      showModal := true;
    }

    /** `openEditModal(u)`: the form starts with u's four fields. */
    method OpenEditModal(u: User)
      modifies this`editUser, this`form, this`formError, this`showModal
      ensures editUser == Some(u) && form == Form(u.username, u.name, u.email, u.password)
      ensures formError == "" && showModal
    {
      editUser := Some(u);
      form := Form(u.username, u.name, u.email, u.password);
      formError := "";
      showModal := true;
    }

    /** `closeModal`. */
    method CloseModal()
      modifies this`showModal, this`editUser, this`formError
      ensures !showModal && editUser == None && formError == ""
    {
      showModal := false;
      editUser := None;
      formError := "";
    }

    /** `validateForm`: report whether the form is valid, recording the message when it is not. */
    method ValidateForm() returns (ok: bool)
      modifies this`formError
      ensures ok <==> Validate(form) == Valid
      ensures formError == if ok then old(formError) else Validate(form).message
    {
      if Trim(form.username) == "" || Trim(form.name) == "" || Trim(form.email) == "" || Trim(form.password) == "" {
        formError := FIELDS_REQUIRED;
        return false;
      }
      if !IsEmail(form.email) {
        formError := INVALID_EMAIL;
        return false;
      }
      return true;
    }

    /** `handleFormSubmit`, with the two clock readings of an added user as parameters: an
        invalid form only records its message; a valid one edits the user being edited, or adds
        a new user, and closes the modal. */
    method HandleFormSubmit(created: string, last: string)
      modifies this
      ensures search == old(search) && form == old(form) && deleteUserId == old(deleteUserId)
      ensures Validate(form).Invalid? ==>
        && users == old(users) && formError == Validate(form).message
        && showModal == old(showModal) && editUser == old(editUser)
      ensures Validate(form).Valid? ==>
        && users == (if old(editUser).Some? then Edited(old(users), old(editUser).value.id, form)
                     else Added(old(users), form, created, last))
        && !showModal && editUser == None && formError == ""
    {
      var ok := ValidateForm();
      if ok {
        SaveForm(created, last);
      }
    }

    /** The part of `handleFormSubmit` after a successful validation. */
    method SaveForm(created: string, last: string)
      modifies this`users, this`formError, this`showModal, this`editUser
      ensures users == (if old(editUser).Some? then Edited(old(users), old(editUser).value.id, form)
                        else Added(old(users), form, created, last))
      ensures !showModal && editUser == None && formError == ""
    {
      if editUser.Some? {
        users := Edited(users, editUser.value.id, form);
      } else {
        var newUser := NewUser(NextId(users), form, created, last);
        users := [newUser] + users;
      }
      CloseModal();
    }

    /** `confirmDelete(id)`. */
    method ConfirmDelete(id: nat)
      modifies this`deleteUserId
      ensures deleteUserId == Some(id)
    {
      deleteUserId := Some(id);
    }

    /** `handleDelete`: drop the users with the pending id and clear it. */
    method HandleDelete()
      modifies this`users, this`deleteUserId
      ensures users == Deleted(old(users), old(deleteUserId)) && deleteUserId == None
    {
      users := Deleted(users, deleteUserId);
      deleteUserId := None;
    }
  }
}
