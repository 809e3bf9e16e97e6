/** The two update commands built on the merger: `users update` (one user,
    assignments from the command line) and `users update-csv` (one update
    per CSV row, resumable, with a limit and per-row error accounting). */
module Commands {
  import opened Wrappers
  import opened Errors
  import opened Dicts
  import opened Assignments
  import opened Nested

  /** The payload `users update` sends: the `--set` items, prefixed by the
      context when there is one, made nested without defaults. */
  function UpdatePayload(setFields: seq<string>, context: Option<string>): Result<Tree, CliError> {
    var fields :- ParseAssignments(setFields);
    Nest(WithContext(fields, context), [])
  }

  /** The key an item with key `k` ends up under. */
  function Scoped(context: Option<string>, k: string): string {
    if Truthy(context) then context.value + "." + k else k
  }

  /** `users update`: malformed items are an error; otherwise each key's
      path (below the context's path, when there is one) holds the value of
      the last item assigning it, and a key no item assigns has no leaf. */
  lemma UpdatePayloadSpec(setFields: seq<string>, context: Option<string>, k: string)
    requires UpdatePayload(setFields, context).Success?
    ensures forall i :: 0 <= i < |setFields| ==> ParseItem(setFields[i]).Success?
    ensures Lookup(UpdatePayload(setFields, context).value, PathOf(Scoped(context, k))) == LastAssigned(setFields, k)
    ensures Truthy(context) ==>
              PathOf(Scoped(context, k)) == PathOf(context.value) + PathOf(k)
  {
    ParseAssignmentsSpec(setFields);
    var fields := ParseAssignments(setFields).value;
    var flat := WithContext(fields, context);
    if Truthy(context) {
      ContextSpec(fields, context.value, k, k);
    }
    NestKey(flat, [], Scoped(context, k));
  }

  /** The payload holds nothing but those leaves: every leaf lies at the
      path of some key an item assigns, below the context's path. */
  lemma UpdatePayloadLeaves(setFields: seq<string>, context: Option<string>, p: seq<string>)
    requires UpdatePayload(setFields, context).Success?
    ensures Lookup(UpdatePayload(setFields, context).value, p).Some? ==>
              exists k :: p == PathOf(Scoped(context, k)) && LastAssigned(setFields, k).Some?
  {
    ParseAssignmentsSpec(setFields);
    var fields := ParseAssignments(setFields).value;
    var flat := WithContext(fields, context);
    if Truthy(context) {
      PrefixedDistinct(fields, context.value);
    }
    NestLookup(flat, [], p);
    if Lookup(UpdatePayload(setFields, context).value, p).Some? {
      var key := Join(p, '.');
      PathOfKey(key, p);
      assert p == PathOf(key);
      if Truthy(context) {
        var c := context.value;
        PrefixedGet(fields, c, key);
        var k := key[|c| + 1..];
        assert key == key[..|c| + 1] + k;
        assert Scoped(context, k) == key;
        assert LastAssigned(setFields, k).Some?;
      } else {
        assert Scoped(context, key) == key;
        assert LastAssigned(setFields, key).Some?;
      }
    }
  }

  /** `users update` fails exactly when an item is malformed (with the
      first such item's error) or two of the scoped keys' paths clash. */
  lemma UpdatePayloadFails(setFields: seq<string>, context: Option<string>)
    ensures ParseAssignments(setFields).Failure? ==>
              exists i :: 0 <= i < |setFields| && ParseItem(setFields[i]).Failure? &&
                          (forall j :: 0 <= j < i ==> ParseItem(setFields[j]).Success?) &&
                          UpdatePayload(setFields, context) == Failure(ParseItem(setFields[i]).error)
    ensures ParseAssignments(setFields).Success? <==>
              forall i :: 0 <= i < |setFields| ==> ParseItem(setFields[i]).Success?
    ensures ParseAssignments(setFields).Success? ==>
              (UpdatePayload(setFields, context).Failure? <==>
               Clash(Paths(WithContext(ParseAssignments(setFields).value, context))))
  {
    ParseAssignmentsSpec(setFields);
    if ParseAssignments(setFields).Success? {
      var flat := WithContext(ParseAssignments(setFields).value, context);
      NestConflict(flat, []);
      assert [] + flat == flat;
    }
  }

  /** The usage example's equivalence: with a context `c` (non-empty, no
      `=`), `-c c -s k=v ...` and `-s c.k=v ...` are parsed alike and, when
      the items are well formed, send the same payload. */
  lemma UpdatePayloadContext(setFields: seq<string>, c: string)
    requires c != "" && '=' !in c
    ensures ParseAssignments(PrefixItems(setFields, c)).Success? <==> ParseAssignments(setFields).Success?
    ensures ParseAssignments(setFields).Success? ==>
              UpdatePayload(PrefixItems(setFields, c), None) == UpdatePayload(setFields, Some(c))
    ensures ParseAssignments(setFields).Failure? ==>
              UpdatePayload(PrefixItems(setFields, c), None).Failure? && UpdatePayload(setFields, Some(c)).Failure?
  {
    ParseIntoPrefixed([], setFields, c);
  }

  /** The reserved column: the login of the user a row updates. */
  const LoginColumn: string := "profile.login"

  /** What the remote update call does: it returns the updated user, raises
      an HTTP error (caught), or raises anything else (not caught). */
  datatype Response = Updated(user: string) | HttpError(message: string) | OtherError(message: string)

  /** The remote side as an oracle: the answer to the n-th update call (from
      0) for a login and a payload. */
  type Client = (nat, string, Tree) -> Response

  /** An entry of `errors`: the row's index, the payload, the message. */
  datatype ErrorEntry = ErrorEntry(index: int, payload: Tree, message: string)

  /** The command's result, `{"done": rv, "errors": errors}`. */
  datatype Report = Report(done: seq<string>, errors: seq<ErrorEntry>)

  /** `range(jump_to_index)` has no element when the index is negative. */
  function Skip(jumpIndex: int): nat {
    if jumpIndex < 0 then 0 else jumpIndex
  }

  /** One processed row up to the remote call: the login is popped from the
      row, the rest is merged over the defaults and sent as the `call`-th
      update. */
  function Attempt(row: Dict, defaults: Dict, call: nat, client: Client): Result<(Tree, Response), CliError> {
    match Get(row, LoginColumn)
    case None => Failure(MissingColumn(LoginColumn))
    case Some(userId) =>
      var payload :- Nest(Remove(row, LoginColumn), defaults);
      Success((payload, client(call, userId, payload)))
  }

  /** What the outcome of a processed row does to the report: a result is
      appended to `done`, an HTTP error to `errors` under `index`, and any
      other exception ends the command. */
  function Record(attempt: Result<(Tree, Response), CliError>, index: int, report: Report): Result<Report, CliError> {
    var (payload, response) :- attempt;
    match response
    case Updated(user) => Success(Report(report.done + [user], report.errors))
    case HttpError(msg) => Success(Report(report.done, report.errors + [ErrorEntry(index, payload, msg)]))
    case OtherError(msg) => Failure(RemoteFailure(msg))
  }

  /** A processed row's effect on the report; its error index is
      `counter + jump_to_index`. */
  function ProcessRow(row: Dict, defaults: Dict, jumpIndex: int, counter: nat, client: Client, report: Report): Result<Report, CliError> {
    Record(Attempt(row, defaults, counter, client), counter + jumpIndex, report)
  }

  /** The `for row in dr` loop from a given state: the limit test, then the
      search for `jump_to_user` (skipped rows leave `counter` alone, the
      matching row clears the cursor and is processed), then the row. */
  function RunRows(rows: seq<Dict>, defaults: Dict, jumpIndex: int, limit: int, client: Client,
                   cursor: Option<string>, counter: nat, report: Report): Result<Report, CliError>
    decreases |rows|
  {
    if rows == [] then Success(report)
    else if limit != 0 && counter > limit then Success(report)
    else if Truthy(cursor) && Get(rows[0], LoginColumn).None? then Failure(MissingColumn(LoginColumn))
    else if Truthy(cursor) && Get(rows[0], LoginColumn) != cursor then
      RunRows(rows[1..], defaults, jumpIndex, limit, client, cursor, counter, report)
    else
      var report' :- ProcessRow(rows[0], defaults, jumpIndex, counter, client, report);
      RunRows(rows[1..], defaults, jumpIndex, limit, client,
              if Truthy(cursor) then None else cursor, counter + 1, report')
  }

  /** `users update-csv` on rows already read: parse the defaults, skip
      `jump_to_index` rows (running out of rows is an error), run the loop. */
  function BulkUpdate(setFields: seq<string>, rows: seq<Dict>, jumpIndex: int, jumpToUser: Option<string>,
                      limit: int, client: Client): Result<Report, CliError> {
    var defaults :- ParseAssignments(setFields);
    if jumpIndex > |rows| then Failure(InputExhausted(|rows|))
    else RunRows(rows[Skip(jumpIndex)..], defaults, jumpIndex, limit, client, jumpToUser, 0, Report([], []))
  }

  /** `users_bulk_update`, its loops and its mutable state as written:
      `counter`, `rv`, `errors`, the rows still unread and `jump_to_user`. */
  method UsersBulkUpdate(setFields: seq<string>, rows: seq<Dict>, jumpIndex: int, jumpToUser: Option<string>,
                         limit: int, client: Client) returns (r: Result<Report, CliError>)
    ensures r == BulkUpdate(setFields, rows, jumpIndex, jumpToUser, limit, client)
  {
    var parsed := ParseAssignments(setFields);
    if parsed.Failure? {
      return Failure(parsed.error);
    }
    var defaults := parsed.value;
    var start := SkipRows(|rows|, jumpIndex);
    if start.Failure? {
      return Failure(start.error);
    }
    var rv: seq<string> := [];
    var errors: seq<ErrorEntry> := [];
    var counter: nat := 0;
    var user := jumpToUser;
    // the rows the reader has not yet handed out
    var rest := rows[start.value..];
    ghost var goal := BulkUpdate(setFields, rows, jumpIndex, jumpToUser, limit, client);
    while rest != []
      invariant goal == RunRows(rest, defaults, jumpIndex, limit, client, user, counter, Report(rv, errors))
    {
      if limit != 0 && counter > limit {
        break;
      }
      var row := rest[0];
      ghost var unread := rest;
      ghost var cursor := user;
      ghost var report := Report(rv, errors);
      rest := rest[1..];
      if Truthy(user) {
        var login := Get(row, LoginColumn);
        if login.None? {
          return Failure(MissingColumn(LoginColumn));
        }
        if login != user {
          RunRowsPass(unread, defaults, jumpIndex, limit, client, cursor, counter, report);
          continue;
        }
        user := None;
      }
      RunRowsProcess(unread, defaults, jumpIndex, limit, client, cursor, counter, report);
      var outcome := UpdateRow(row, defaults, jumpIndex, counter, client, Report(rv, errors));
      if outcome.Failure? {
        return Failure(outcome.error);
      }
      rv, errors := outcome.value.done, outcome.value.errors;
      counter := counter + 1;
    }
    return Success(Report(rv, errors));
  }

  /** `for _ in range(jump_to_index): next(dr)` on a reader of `count`
      rows: the position reached, or the error of reading past the end. */
  method SkipRows(count: nat, jumpIndex: int) returns (r: Result<nat, CliError>)
    ensures r.Success? <==> jumpIndex <= count
    ensures r.Success? ==> r.value == Skip(jumpIndex)
    ensures r.Failure? ==> r.error == InputExhausted(count)
  {
    var next := 0;
    while next < jumpIndex
      invariant 0 <= next <= count
      invariant next <= Skip(jumpIndex)
    {
      if next == count {
        return Failure(InputExhausted(count));
      }
      next := next + 1;
    }
    return Success(next);
  }

  /** The body of the loop for a processed row: pop the login, merge the
      rest over the defaults, send the update, and append its result to
      `rv` or its HTTP error to `errors`. */
  method UpdateRow(row: Dict, defaults: Dict, jumpIndex: int, counter: nat, client: Client, report: Report)
    returns (r: Result<Report, CliError>)
    ensures r == ProcessRow(row, defaults, jumpIndex, counter, client, report)
  {
    var userId := Get(row, LoginColumn);
    if userId.None? {
      return Failure(MissingColumn(LoginColumn));
    }
    var finalDict := FlatToNested(Remove(row, LoginColumn), defaults);
    if finalDict.Failure? {
      return Failure(finalDict.error);
    }
    var rv, errors := report.done, report.errors;
    match client(counter, userId.value, finalDict.value) {
      case Updated(record) =>
        rv := rv + [record];
      case HttpError(msg) =>
        errors := errors + [ErrorEntry(counter + jumpIndex, finalDict.value, msg)];
      case OtherError(msg) =>
        return Failure(RemoteFailure(msg));
    }
    return Success(Report(rv, errors));
  }

  /** One step of the loop on a row passed over while seeking the cursor. */
  lemma RunRowsPass(rows: seq<Dict>, defaults: Dict, jumpIndex: int, limit: int, client: Client,
                    cursor: Option<string>, counter: nat, report: Report)
    requires rows != [] && !(limit != 0 && counter > limit)
    requires Truthy(cursor) && Get(rows[0], LoginColumn).Some? && Get(rows[0], LoginColumn) != cursor
    ensures RunRows(rows, defaults, jumpIndex, limit, client, cursor, counter, report) ==
            RunRows(rows[1..], defaults, jumpIndex, limit, client, cursor, counter, report)
  {
  }

  /** One step of the loop on a row that is processed: the row's outcome,
      then the rest without the cursor. */
  lemma RunRowsProcess(rows: seq<Dict>, defaults: Dict, jumpIndex: int, limit: int, client: Client,
                       cursor: Option<string>, counter: nat, report: Report)
    requires rows != [] && !(limit != 0 && counter > limit)
    requires !Truthy(cursor) || Get(rows[0], LoginColumn) == cursor
    ensures RunRows(rows, defaults, jumpIndex, limit, client, cursor, counter, report) ==
      match Record(Attempt(rows[0], defaults, counter, client), counter + jumpIndex, report)
      case Failure(e) => Failure(e)
      case Success(report') =>
        RunRows(rows[1..], defaults, jumpIndex, limit, client, if Truthy(cursor) then None else cursor, counter + 1, report')
  {
  }

  // The loop above interleaves three concerns row by row. What follows
  // separates them: which rows are processed (resume and limit), then the
  // processing of those rows one after the other.

  /** The first row whose login is `user` (its position, or the number of
      rows when there is none); a row without a login on the way is the
      `KeyError` of `row["profile.login"]`. */
  function SeekLogin(rows: seq<Dict>, user: string): (r: Result<nat, CliError>)
    ensures r.Success? ==> r.value <= |rows|
    ensures r.Success? ==>
              forall i :: 0 <= i < r.value ==> Get(rows[i], LoginColumn).Some? && Get(rows[i], LoginColumn) != Some(user)
    ensures r.Success? && r.value < |rows| ==> Get(rows[r.value], LoginColumn) == Some(user)
    ensures r.Failure? ==> r.error == MissingColumn(LoginColumn)
    ensures r.Failure? ==>
              exists i :: 0 <= i < |rows| && Get(rows[i], LoginColumn).None? &&
                (forall k :: 0 <= k < i ==> Get(rows[k], LoginColumn) != Some(user))
    decreases |rows|
  {
    if rows == [] then Success(0)
    else
      match Get(rows[0], LoginColumn)
      case None => Failure(MissingColumn(LoginColumn))
      case Some(login) =>
        if login == user then Success(0)
        else
          var i :- SeekLogin(rows[1..], user);
          Success(i + 1)
  }

  /** The rows the limit lets through once `counter` rows are done: all of
      them for a limit of 0, otherwise at most `limit + 1 - counter`. */
  function Budget(rows: seq<Dict>, limit: int, counter: nat): seq<Dict> {
    if limit == 0 then rows
    else if limit + 1 - counter <= 0 then []
    else if limit + 1 - counter >= |rows| then rows
    else rows[..limit + 1 - counter]
  }

  /** The rows the command processes, in order: those after the first
      `jump_to_index`, from the row of `jump_to_user` on when there is such
      a cursor, cut by the limit. A negative limit stops at the first row. */
  function Selected(rows: seq<Dict>, jumpIndex: int, jumpToUser: Option<string>, limit: int): Result<seq<Dict>, CliError> {
    if jumpIndex > |rows| then Failure(InputExhausted(|rows|))
    else
      var rest := rows[Skip(jumpIndex)..];
      if limit < 0 then Success([])
      else if !Truthy(jumpToUser) then Success(Budget(rest, limit, 0))
      else
        var from :- SeekLogin(rest, jumpToUser.value);
        Success(Budget(rest[from..], limit, 0))
  }

  /** Processing rows one after the other, the `counter`-th processed row
      making the `counter`-th call. */
  function Process(batch: seq<Dict>, defaults: Dict, jumpIndex: int, client: Client,
                   counter: nat, report: Report): Result<Report, CliError>
    decreases |batch|
  {
    if batch == [] then Success(report)
    else
      var report' :- ProcessRow(batch[0], defaults, jumpIndex, counter, client, report);
      Process(batch[1..], defaults, jumpIndex, client, counter + 1, report')
  }

  /** The staged description of the command. */
  function Staged(setFields: seq<string>, rows: seq<Dict>, jumpIndex: int, jumpToUser: Option<string>,
                  limit: int, client: Client): Result<Report, CliError> {
    var defaults :- ParseAssignments(setFields);
    var batch :- Selected(rows, jumpIndex, jumpToUser, limit);
    Process(batch, defaults, jumpIndex, client, 0, Report([], []))
  }

  /** Without a cursor the loop processes the rows the limit lets through. */
  lemma {:induction false} RunRowsWithoutCursor(rows: seq<Dict>, defaults: Dict, jumpIndex: int, limit: int,
                                                client: Client, cursor: Option<string>, counter: nat, report: Report)
    requires !Truthy(cursor)
    ensures RunRows(rows, defaults, jumpIndex, limit, client, cursor, counter, report) ==
            Process(Budget(rows, limit, counter), defaults, jumpIndex, client, counter, report)
    decreases |rows|
  {
    if rows != [] && !(limit != 0 && counter > limit) {
      var b := Budget(rows, limit, counter);
      BudgetStep(rows, limit, counter);
      RunRowsProcess(rows, defaults, jumpIndex, limit, client, cursor, counter, report);
      match ProcessRow(rows[0], defaults, jumpIndex, counter, client, report)
      case Failure(_) =>
      case Success(report') =>
        RunRowsWithoutCursor(rows[1..], defaults, jumpIndex, limit, client, cursor, counter + 1, report');
    }
  }

  /** The limit lets a row through while `counter` has not passed it. */
  lemma BudgetStep(rows: seq<Dict>, limit: int, counter: nat)
    requires rows != [] && !(limit != 0 && counter > limit)
    ensures Budget(rows, limit, counter) != []
    ensures Budget(rows, limit, counter)[0] == rows[0]
    ensures Budget(rows, limit, counter)[1..] == Budget(rows[1..], limit, counter + 1)
  {
  }

  /** With a cursor (and a limit not yet reached) the loop seeks the
      cursor's row and continues, without the cursor, from that row on. */
  lemma {:induction false} RunRowsWithCursor(rows: seq<Dict>, defaults: Dict, jumpIndex: int, limit: int,
                                             client: Client, cursor: Option<string>, counter: nat, report: Report)
    requires Truthy(cursor)
    requires limit == 0 || counter <= limit
    ensures RunRows(rows, defaults, jumpIndex, limit, client, cursor, counter, report) ==
            match SeekLogin(rows, cursor.value)
            case Failure(e) => Failure(e)
            case Success(from) => RunRows(rows[from..], defaults, jumpIndex, limit, client, None, counter, report)
    decreases |rows|
  {
    if rows != [] && Get(rows[0], LoginColumn).Some? && Get(rows[0], LoginColumn) != cursor {
      RunRowsWithCursor(rows[1..], defaults, jumpIndex, limit, client, cursor, counter, report);
      match SeekLogin(rows[1..], cursor.value)
      case Failure(_) =>
      case Success(from) =>
        assert rows[from + 1..] == rows[1..][from..];
    }
  }

  /** The loop as written is the staged description: parse the defaults,
      select the rows, process them. */
  lemma BulkUpdateIsStaged(setFields: seq<string>, rows: seq<Dict>, jumpIndex: int, jumpToUser: Option<string>,
                           limit: int, client: Client)
    ensures BulkUpdate(setFields, rows, jumpIndex, jumpToUser, limit, client) ==
            Staged(setFields, rows, jumpIndex, jumpToUser, limit, client)
  {
    if ParseAssignments(setFields).Success? && jumpIndex <= |rows| {
      var defaults := ParseAssignments(setFields).value;
      var rest := rows[Skip(jumpIndex)..];
      var empty := Report([], []);
      if limit >= 0 {
        if !Truthy(jumpToUser) {
          RunRowsWithoutCursor(rest, defaults, jumpIndex, limit, client, jumpToUser, 0, empty);
        } else {
          RunRowsWithCursor(rest, defaults, jumpIndex, limit, client, jumpToUser, 0, empty);
          match SeekLogin(rest, jumpToUser.value)
          case Failure(_) =>
          case Success(from) =>
            RunRowsWithoutCursor(rest[from..], defaults, jumpIndex, limit, client, None, 0, empty);
        }
      }
    }
  }

  /** The search stops at the first row with the login. */
  lemma {:induction false} SeekLoginFinds(rows: seq<Dict>, user: string, m: nat)
    requires m < |rows| && Get(rows[m], LoginColumn) == Some(user)
    requires forall i :: 0 <= i < m ==> Get(rows[i], LoginColumn).Some? && Get(rows[i], LoginColumn) != Some(user)
    ensures SeekLogin(rows, user) == Success(m)
    decreases m
  {
    if m > 0 {
      SeekLoginFinds(rows[1..], user, m - 1);
    }
  }

  /** The outcomes of processing a batch from call `counter` on: the
      `p`-th outcome is the `p`-th row's, as call `counter + p`. */
  function Attempts(batch: seq<Dict>, defaults: Dict, client: Client, counter: nat): (r: seq<Result<(Tree, Response), CliError>>)
    ensures |r| == |batch|
    ensures forall p :: 0 <= p < |batch| ==> r[p] == Attempt(batch[p], defaults, counter + p, client)
    decreases |batch|
  {
    if batch == [] then []
    else
      var rest := Attempts(batch[1..], defaults, client, counter + 1);
      var r := [Attempt(batch[0], defaults, counter, client)] + rest;
      assert forall p :: 1 <= p < |batch| ==> r[p] == rest[p - 1] && batch[p] == batch[1..][p - 1];
      r
  }

  /** Recording outcomes one after the other, the error indices counting
      up from `index`. */
  function RecordAll(attempts: seq<Result<(Tree, Response), CliError>>, index: int, report: Report): Result<Report, CliError>
    decreases |attempts|
  {
    if attempts == [] then Success(report)
    else
      var report' :- Record(attempts[0], index, report);
      RecordAll(attempts[1..], index + 1, report')
  }

  /** Processing a batch is recording the outcomes of its rows. */
  lemma {:induction false} ProcessRecords(batch: seq<Dict>, defaults: Dict, jumpIndex: int, client: Client,
                                          counter: nat, report: Report)
    ensures Process(batch, defaults, jumpIndex, client, counter, report) ==
            RecordAll(Attempts(batch, defaults, client, counter), counter + jumpIndex, report)
    decreases |batch|
  {
    if batch != [] {
      var all := Attempts(batch, defaults, client, counter);
      assert all[0] == Attempt(batch[0], defaults, counter, client);
      assert all[1..] == Attempts(batch[1..], defaults, client, counter + 1);
      match ProcessRow(batch[0], defaults, jumpIndex, counter, client, report)
      case Failure(_) =>
      case Success(report') =>
        ProcessRecords(batch[1..], defaults, jumpIndex, client, counter + 1, report');
        assert counter + 1 + jumpIndex == counter + jumpIndex + 1;
    }
  }

  /** A row goes through when its payload is built and its update returns
      or raises an HTTP error. */
  predicate Passes(attempt: Result<(Tree, Response), CliError>) {
    attempt.Success? && !attempt.value.1.OtherError?
  }

  /** Recording fails exactly when some outcome does not go through: an
      HTTP error on one row never stops the rows after it. */
  lemma {:induction false} RecordAllSucceeds(attempts: seq<Result<(Tree, Response), CliError>>, index: int, report: Report)
    ensures RecordAll(attempts, index, report).Success? <==> forall p :: 0 <= p < |attempts| ==> Passes(attempts[p])
    decreases |attempts|
  {
    if attempts != [] {
      var rest := attempts[1..];
      assert forall p :: 0 <= p < |rest| ==> rest[p] == attempts[p + 1];
      match Record(attempts[0], index, report)
      case Failure(_) =>
      case Success(report') =>
        RecordAllSucceeds(rest, index + 1, report');
        forall p | 0 < p < |attempts|
          ensures attempts[p] == rest[p - 1]
        {
        }
    }
  }

  /** Every recorded outcome adds exactly one entry, to `done` or to
      `errors`, and nothing already reported is dropped. */
  lemma {:induction false} RecordAllCounts(attempts: seq<Result<(Tree, Response), CliError>>, index: int, report: Report)
    requires RecordAll(attempts, index, report).Success?
    ensures var r := RecordAll(attempts, index, report).value;
      && |r.done| + |r.errors| == |report.done| + |report.errors| + |attempts|
      && |report.done| <= |r.done| && r.done[..|report.done|] == report.done
      && |report.errors| <= |r.errors| && r.errors[..|report.errors|] == report.errors
    decreases |attempts|
  {
    if attempts != [] {
      var report' := Record(attempts[0], index, report).value;
      RecordAllCounts(attempts[1..], index + 1, report');
      var r := RecordAll(attempts, index, report).value;
      assert r.done[..|report.done|] == r.done[..|report'.done|][..|report.done|];
      assert r.errors[..|report.errors|] == r.errors[..|report'.errors|][..|report.errors|];
    }
  }

  /** Unfolding helper for the lemmas below: `Record` on one outcome that
      went through. */
  lemma RecordStep(attempt: Result<(Tree, Response), CliError>, index: int, report: Report)
    requires Record(attempt, index, report).Success?
    ensures attempt.Success? && !attempt.value.1.OtherError?
    ensures attempt.value.1.HttpError? ==>
      Record(attempt, index, report).value ==
      Report(report.done, report.errors + [ErrorEntry(index, attempt.value.0, attempt.value.1.message)])
    ensures attempt.value.1.Updated? ==>
      Record(attempt, index, report).value == Report(report.done + [attempt.value.1.user], report.errors)
  {
  }

  /** Each new error entry names, by its index, the outcome it records and
      holds that outcome's payload and HTTP error message. */
  lemma {:induction false} RecordAllErrorSources(attempts: seq<Result<(Tree, Response), CliError>>, index: int, report: Report)
    requires RecordAll(attempts, index, report).Success?
    ensures var r := RecordAll(attempts, index, report).value;
      forall k :: |report.errors| <= k < |r.errors| ==>
        0 <= r.errors[k].index - index < |attempts| &&
        attempts[r.errors[k].index - index] == Success((r.errors[k].payload, HttpError(r.errors[k].message)))
    decreases |attempts|
  {
    if attempts != [] {
      var rest := attempts[1..];
      RecordStep(attempts[0], index, report);
      var report' := Record(attempts[0], index, report).value;
      RecordAllErrorSources(rest, index + 1, report');
      RecordAllCounts(rest, index + 1, report');
      var r := RecordAll(rest, index + 1, report').value;
      forall k | |report.errors| <= k < |r.errors|
        ensures 0 <= r.errors[k].index - index < |attempts| &&
          attempts[r.errors[k].index - index] == Success((r.errors[k].payload, HttpError(r.errors[k].message)))
      {
        if k >= |report'.errors| {
          assert rest[r.errors[k].index - (index + 1)] == attempts[r.errors[k].index - index];
        } else {
          assert r.errors[k] == r.errors[..|report'.errors|][k] == report'.errors[k];
        }
      }
    }
  }

  /** Error entries come in the order of the outcomes they record. */
  lemma {:induction false} RecordAllErrorOrder(attempts: seq<Result<(Tree, Response), CliError>>, index: int, report: Report)
    requires RecordAll(attempts, index, report).Success?
    ensures var r := RecordAll(attempts, index, report).value;
      forall k1, k2 :: |report.errors| <= k1 < k2 < |r.errors| ==> r.errors[k1].index < r.errors[k2].index
    decreases |attempts|
  {
    if attempts != [] {
      var rest := attempts[1..];
      RecordStep(attempts[0], index, report);
      var report' := Record(attempts[0], index, report).value;
      RecordAllErrorOrder(rest, index + 1, report');
      RecordAllErrorSources(rest, index + 1, report');
      RecordAllCounts(rest, index + 1, report');
      var r := RecordAll(rest, index + 1, report').value;
      if |report'.errors| > |report.errors| {
        assert r.errors[|report.errors|] == r.errors[..|report'.errors|][|report.errors|];
      }
    }
  }

  /** Every HTTP error among the outcomes has its entry. */
  lemma {:induction false} RecordAllErrorsComplete(attempts: seq<Result<(Tree, Response), CliError>>, index: int, report: Report)
    requires RecordAll(attempts, index, report).Success?
    ensures var r := RecordAll(attempts, index, report).value;
      forall p :: 0 <= p < |attempts| && attempts[p].Success? && attempts[p].value.1.HttpError? ==>
        ErrorEntry(index + p, attempts[p].value.0, attempts[p].value.1.message) in r.errors
    decreases |attempts|
  {
    if attempts != [] {
      var rest := attempts[1..];
      RecordStep(attempts[0], index, report);
      var report' := Record(attempts[0], index, report).value;
      RecordAllErrorsComplete(rest, index + 1, report');
      RecordAllCounts(rest, index + 1, report');
      var r := RecordAll(rest, index + 1, report').value;
      forall p | 0 <= p < |attempts| && attempts[p].Success? && attempts[p].value.1.HttpError?
        ensures ErrorEntry(index + p, attempts[p].value.0, attempts[p].value.1.message) in r.errors
      {
        if p > 0 {
          assert rest[p - 1] == attempts[p];
          assert index + 1 + (p - 1) == index + p;
        } else {
          assert r.errors[|report.errors|] == r.errors[..|report'.errors|][|report.errors|];
        }
      }
    }
  }

  /** The users returned by the updates, in row order. */
  function UpdatedUsers(attempts: seq<Result<(Tree, Response), CliError>>): seq<string>
    decreases |attempts|
  {
    if attempts == [] then []
    else
      (if attempts[0].Success? && attempts[0].value.1.Updated? then [attempts[0].value.1.user] else []) +
      UpdatedUsers(attempts[1..])
  }

  /** The error entries of the HTTP errors, in row order, indices counting
      up from `index`. */
  function HttpErrorEntries(attempts: seq<Result<(Tree, Response), CliError>>, index: int): seq<ErrorEntry>
    decreases |attempts|
  {
    if attempts == [] then []
    else
      (if attempts[0].Success? && attempts[0].value.1.HttpError?
       then [ErrorEntry(index, attempts[0].value.0, attempts[0].value.1.message)] else []) +
      HttpErrorEntries(attempts[1..], index + 1)
  }

  /** When every outcome goes through, the report gains the updated users
      and the HTTP error entries, each list in row order. */
  lemma {:induction false} RecordAllContents(attempts: seq<Result<(Tree, Response), CliError>>, index: int, report: Report)
    requires forall p :: 0 <= p < |attempts| ==> Passes(attempts[p])
    ensures RecordAll(attempts, index, report) ==
            Success(Report(report.done + UpdatedUsers(attempts), report.errors + HttpErrorEntries(attempts, index)))
    decreases |attempts|
  {
    if attempts != [] {
      var rest := attempts[1..];
      assert forall p :: 0 <= p < |rest| ==> Passes(rest[p]) by {
        forall p | 0 <= p < |rest|
          ensures Passes(rest[p])
        {
          assert rest[p] == attempts[p + 1];
        }
      }
      var report' := Record(attempts[0], index, report).value;
      RecordAllContents(rest, index + 1, report');
      RecordHead(attempts, index, report);
    } else {
      assert report.done + [] == report.done && report.errors + [] == report.errors;
    }
  }

  /** Recording the first outcome moves it from the lists still to come to
      the report. */
  lemma RecordHead(attempts: seq<Result<(Tree, Response), CliError>>, index: int, report: Report)
    requires attempts != [] && Passes(attempts[0])
    ensures Record(attempts[0], index, report).Success?
    ensures var report' := Record(attempts[0], index, report).value;
      && report'.done + UpdatedUsers(attempts[1..]) == report.done + UpdatedUsers(attempts)
      && report'.errors + HttpErrorEntries(attempts[1..], index + 1) == report.errors + HttpErrorEntries(attempts, index)
  {
    var rest := attempts[1..];
    var a := attempts[0].value;
    var doneHead := if a.1.Updated? then [a.1.user] else [];
    var errorHead := if a.1.HttpError? then [ErrorEntry(index, a.0, a.1.message)] else [];
    assert UpdatedUsers(attempts) == doneHead + UpdatedUsers(rest);
    assert HttpErrorEntries(attempts, index) == errorHead + HttpErrorEntries(rest, index + 1);
    assert Record(attempts[0], index, report).value == Report(report.done + doneHead, report.errors + errorHead);
    assert report.done + doneHead + UpdatedUsers(rest) == report.done + (doneHead + UpdatedUsers(rest));
    assert report.errors + errorHead + HttpErrorEntries(rest, index + 1) ==
           report.errors + (errorHead + HttpErrorEntries(rest, index + 1));
  }

  /** `profile.login` is taken out of the row before the merge: the
      payload holds at that path only what the defaults put there, and the
      login goes to the call as its target. */
  lemma LoginIsTarget(row: Dict, defaults: Dict, call: nat, client: Client)
    requires DistinctKeys(row) && DistinctKeys(defaults)
    requires Attempt(row, defaults, call, client).Success?
    ensures var (payload, response) := Attempt(row, defaults, call, client).value;
      && Get(row, LoginColumn).Some?
      && Lookup(payload, PathOf(LoginColumn)) == Get(defaults, LoginColumn)
      && response == client(call, Get(row, LoginColumn).value, payload)
  {
    NestKey(Remove(row, LoginColumn), defaults, LoginColumn);
  }

  /** A completed command parsed its defaults and selected its rows. */
  lemma BulkSelected(setFields: seq<string>, rows: seq<Dict>, jumpIndex: int, jumpToUser: Option<string>,
                     limit: int, client: Client)
    requires BulkUpdate(setFields, rows, jumpIndex, jumpToUser, limit, client).Success?
    ensures ParseAssignments(setFields).Success? && Selected(rows, jumpIndex, jumpToUser, limit).Success?
  {
    BulkUpdateIsStaged(setFields, rows, jumpIndex, jumpToUser, limit, client);
  }

  /** Once the defaults parse and the rows are selected, the command records
      the outcomes of the selected rows, the `p`-th one making call `p`. */
  lemma BulkRecorded(setFields: seq<string>, rows: seq<Dict>, jumpIndex: int, jumpToUser: Option<string>,
                     limit: int, client: Client)
    requires ParseAssignments(setFields).Success? && Selected(rows, jumpIndex, jumpToUser, limit).Success?
    ensures BulkUpdate(setFields, rows, jumpIndex, jumpToUser, limit, client) ==
      RecordAll(Attempts(Selected(rows, jumpIndex, jumpToUser, limit).value, ParseAssignments(setFields).value, client, 0),
                jumpIndex, Report([], []))
  {
    BulkUpdateIsStaged(setFields, rows, jumpIndex, jumpToUser, limit, client);
    ProcessRecords(Selected(rows, jumpIndex, jumpToUser, limit).value, ParseAssignments(setFields).value,
                   jumpIndex, client, 0, Report([], []));
  }

  /** Once the defaults parse and the rows are selected, the command
      completes exactly when every selected row goes through: a row's HTTP
      error is reported and the run goes on. */
  lemma BulkSucceeds(setFields: seq<string>, rows: seq<Dict>, jumpIndex: int, jumpToUser: Option<string>,
                     limit: int, client: Client)
    requires ParseAssignments(setFields).Success? && Selected(rows, jumpIndex, jumpToUser, limit).Success?
    ensures var batch := Selected(rows, jumpIndex, jumpToUser, limit).value;
            var attempts := Attempts(batch, ParseAssignments(setFields).value, client, 0);
      BulkUpdate(setFields, rows, jumpIndex, jumpToUser, limit, client).Success? <==>
      forall p :: 0 <= p < |batch| ==> Passes(attempts[p])
  {
    BulkRecorded(setFields, rows, jumpIndex, jumpToUser, limit, client);
    var attempts := Attempts(Selected(rows, jumpIndex, jumpToUser, limit).value, ParseAssignments(setFields).value, client, 0);
    RecordAllSucceeds(attempts, jumpIndex, Report([], []));
  }

  /** A successful run reports one entry per selected row. */
  lemma BulkCounts(setFields: seq<string>, rows: seq<Dict>, jumpIndex: int, jumpToUser: Option<string>,
                   limit: int, client: Client)
    requires BulkUpdate(setFields, rows, jumpIndex, jumpToUser, limit, client).Success?
    ensures Selected(rows, jumpIndex, jumpToUser, limit).Success?
    ensures var r := BulkUpdate(setFields, rows, jumpIndex, jumpToUser, limit, client).value;
      |r.done| + |r.errors| == |Selected(rows, jumpIndex, jumpToUser, limit).value|
  {
    BulkSelected(setFields, rows, jumpIndex, jumpToUser, limit, client);
    BulkRecorded(setFields, rows, jumpIndex, jumpToUser, limit, client);
    var attempts := Attempts(Selected(rows, jumpIndex, jumpToUser, limit).value, ParseAssignments(setFields).value, client, 0);
    RecordAllCounts(attempts, jumpIndex, Report([], []));
  }

  /** A successful run reports the users the updates returned and the
      entries of the HTTP errors, each in the order of the selected rows. */
  lemma BulkContents(setFields: seq<string>, rows: seq<Dict>, jumpIndex: int, jumpToUser: Option<string>,
                     limit: int, client: Client)
    requires BulkUpdate(setFields, rows, jumpIndex, jumpToUser, limit, client).Success?
    ensures ParseAssignments(setFields).Success? && Selected(rows, jumpIndex, jumpToUser, limit).Success?
    ensures var batch := Selected(rows, jumpIndex, jumpToUser, limit).value;
            var attempts := Attempts(batch, ParseAssignments(setFields).value, client, 0);
      BulkUpdate(setFields, rows, jumpIndex, jumpToUser, limit, client).value ==
      Report(UpdatedUsers(attempts), HttpErrorEntries(attempts, jumpIndex))
  {
    BulkSelected(setFields, rows, jumpIndex, jumpToUser, limit, client);
    BulkRecorded(setFields, rows, jumpIndex, jumpToUser, limit, client);
    var attempts := Attempts(Selected(rows, jumpIndex, jumpToUser, limit).value, ParseAssignments(setFields).value, client, 0);
    var empty := Report([], []);
    RecordAllSucceeds(attempts, jumpIndex, empty);
    RecordAllContents(attempts, jumpIndex, empty);
    assert empty.done + UpdatedUsers(attempts) == UpdatedUsers(attempts);
    assert empty.errors + HttpErrorEntries(attempts, jumpIndex) == HttpErrorEntries(attempts, jumpIndex);
  }

  /** Resuming by index, without cursor or limit: exactly the rows from
      `jump_to_index` on are processed, the first of them as call 0; more
      rows to skip than there are is an error. */
  lemma ResumeByIndex(setFields: seq<string>, rows: seq<Dict>, jumpIndex: int, jumpToUser: Option<string>, client: Client)
    requires ParseAssignments(setFields).Success?
    requires !Truthy(jumpToUser)
    ensures jumpIndex > |rows| ==>
      BulkUpdate(setFields, rows, jumpIndex, jumpToUser, 0, client) == Failure(InputExhausted(|rows|))
    ensures 0 <= jumpIndex <= |rows| ==>
      BulkUpdate(setFields, rows, jumpIndex, jumpToUser, 0, client) ==
      Process(rows[jumpIndex..], ParseAssignments(setFields).value, jumpIndex, client, 0, Report([], []))
  {
    BulkUpdateIsStaged(setFields, rows, jumpIndex, jumpToUser, 0, client);
  }

  /** Resuming by login, without limit: the rows between `jump_to_index`
      and the first row with that login are passed over without counting,
      and that row itself is the first processed, as call 0 with error
      index `jump_to_index`. */
  lemma ResumeByUser(setFields: seq<string>, rows: seq<Dict>, jumpIndex: int, user: string, m: nat, client: Client)
    requires ParseAssignments(setFields).Success?
    requires user != ""
    requires 0 <= jumpIndex <= m < |rows|
    requires Get(rows[m], LoginColumn) == Some(user)
    requires forall i :: jumpIndex <= i < m ==> Get(rows[i], LoginColumn).Some? && Get(rows[i], LoginColumn) != Some(user)
    ensures BulkUpdate(setFields, rows, jumpIndex, Some(user), 0, client) ==
      Process(rows[m..], ParseAssignments(setFields).value, jumpIndex, client, 0, Report([], []))
  {
    SelectedByUser(rows, jumpIndex, user, m);
    BulkUpdateIsStaged(setFields, rows, jumpIndex, Some(user), 0, client);
  }

  /** Without a limit, the rows selected for a login start at the first
      row with that login after the first `jump_to_index`. */
  lemma SelectedByUser(rows: seq<Dict>, jumpIndex: int, user: string, m: nat)
    requires user != ""
    requires 0 <= jumpIndex <= m < |rows|
    requires Get(rows[m], LoginColumn) == Some(user)
    requires forall i :: jumpIndex <= i < m ==> Get(rows[i], LoginColumn).Some? && Get(rows[i], LoginColumn) != Some(user)
    ensures Selected(rows, jumpIndex, Some(user), 0) == Success(rows[m..])
  {
    var rest := rows[jumpIndex..];
    forall i | 0 <= i < m - jumpIndex
      ensures Get(rest[i], LoginColumn).Some? && Get(rest[i], LoginColumn) != Some(user)
    {
      assert rest[i] == rows[jumpIndex + i];
    }
    assert rest[m - jumpIndex] == rows[m];
    SeekLoginFinds(rest, user, m - jumpIndex);
    assert rest[m - jumpIndex..] == rows[m..];
  }

  /** The limit: `limit = L > 0` lets at most L + 1 rows through, because
      `counter > limit` is checked before a row is processed; exactly L + 1
      when that many rows follow the resume point and there is no cursor.
      A negative limit processes nothing. */
  lemma LimitBound(setFields: seq<string>, rows: seq<Dict>, jumpIndex: int, jumpToUser: Option<string>,
                   limit: int, client: Client)
    requires BulkUpdate(setFields, rows, jumpIndex, jumpToUser, limit, client).Success?
    ensures var r := BulkUpdate(setFields, rows, jumpIndex, jumpToUser, limit, client).value;
      && (limit > 0 ==> |r.done| + |r.errors| <= limit + 1)
      && (limit > 0 && !Truthy(jumpToUser) && |rows| - Skip(jumpIndex) > limit ==>
            |r.done| + |r.errors| == limit + 1)
      && (limit < 0 ==> r == Report([], []))
  {
    BulkCounts(setFields, rows, jumpIndex, jumpToUser, limit, client);
  }
}
