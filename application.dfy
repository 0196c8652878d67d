/** The console layer `Application`: a command line is split at spaces, its
    first character (upper-cased) chooses the service call, and the read loop
    runs until `Q` or the first exception. Printing is left out; what is kept
    is which service call a command makes and whether the loop goes on. */
module Console {
  import opened Model
  import opened Operations
  import opened Service
  import opened JavaString

  /** What a command line asks for. */
  datatype Action =
    | Create(user: User)    // C: insert-only save
    | Read(email: string)   // R
    | Update(user: User)    // U: update-only save
    | Delete(email: string) // D
    | Warn                  // C, R, U or D with too few tokens: a warning, no service call
    | Quit                  // Q
    | Ignore                // any other first character

  /** `toUpperCase` of a one-character string, on ASCII letters: a lower-case
      letter becomes its capital, any other character is kept. */
  function UpperCase(c: char): (r: char)
    ensures 'a' <= c <= 'z' ==> 'A' <= r <= 'Z' && r as int == c as int - ('a' as int - 'A' as int)
    ensures !('a' <= c <= 'z') ==> r == c
    ensures !('a' <= r <= 'z')
  {
    if 'a' <= c <= 'z' then (c as int - 32) as char else c
  }

  /** `getEmailFromStringCommand`: token 1, or null with fewer than 2 tokens. */
  function GetEmailFromStringCommand(command: string): (r: Option<string>)
    ensures r.Some? ==> SpaceFree(r.value)
  {
    var tokens := Split(command);
    if |tokens| < 2 then None else Some(tokens[1])
  }

  /** `getUserFromStringCommand`: tokens 1, 2 and 3 as e-mail, first and
      last name, or null with fewer than 4 tokens. */
  function GetUserFromStringCommand(command: string): (r: Option<User>)
    ensures r.Some? ==> SpaceFree(r.value.email) && SpaceFree(r.value.firstname) && SpaceFree(r.value.lastname)
  {
    var tokens := Split(command);
    if |tokens| < 4 then None else Some(User(tokens[1], tokens[2], tokens[3]))
  }

  /** A command of space-free tokens with a non-empty last token yields the
      e-mail in token 1; further tokens are ignored. */
  lemma EmailFromTokens(ts: seq<string>)
    requires |ts| >= 2
    requires forall i :: 0 <= i < |ts| ==> SpaceFree(ts[i])
    requires ts[|ts| - 1] != []
    ensures GetEmailFromStringCommand(Join(ts)) == Some(ts[1])
  {
    SplitJoin(ts);
  }

  /** A single token names no e-mail. */
  lemma NoEmailFromOneToken(t: string)
    requires SpaceFree(t)
    ensures GetEmailFromStringCommand(t) == None
  {
  }

  /** A command of space-free tokens with a non-empty last token yields the
      user of tokens 1 to 3; further tokens are ignored. */
  lemma UserFromTokens(ts: seq<string>)
    requires |ts| >= 4
    requires forall i :: 0 <= i < |ts| ==> SpaceFree(ts[i])
    requires ts[|ts| - 1] != []
    ensures GetUserFromStringCommand(Join(ts)) == Some(User(ts[1], ts[2], ts[3]))
  {
    SplitJoin(ts);
  }

  /** With fewer than 4 tokens there is no user. */
  lemma NoUserFromFewTokens(ts: seq<string>)
    requires 1 <= |ts| < 4
    requires forall i :: 0 <= i < |ts| ==> SpaceFree(ts[i])
    requires |ts| >= 2 ==> ts[|ts| - 1] != []
    ensures GetUserFromStringCommand(Join(ts)) == None
  {
    SplitJoin(ts);
  }

  /** `execute`'s decision: `substring(0, 1)` of an empty command throws;
      otherwise the upper-cased first character picks the call. */
  function Dispatch(command: string): (r: Result<Action, Exception>)
    ensures r.Failure? <==> command == []
    ensures r == Success(Quit) <==> command != [] && (command[0] == 'Q' || command[0] == 'q')
    ensures r.Success? && r.value.Ignore? <==> command != [] && UpperCase(command[0]) !in "CRUDQ"
  {
    if command == [] then Failure(IndexOutOfBounds)
    else match UpperCase(command[0])
      case 'C' => Success(match GetUserFromStringCommand(command) case None => Warn case Some(u) => Create(u))
      case 'R' => Success(match GetEmailFromStringCommand(command) case None => Warn case Some(e) => Read(e))
      case 'U' => Success(match GetUserFromStringCommand(command) case None => Warn case Some(u) => Update(u))
      case 'D' => Success(match GetEmailFromStringCommand(command) case None => Warn case Some(e) => Delete(e))
      case 'Q' => Success(Quit)
      case _ => Success(Ignore)
  }

  /** The command letter is case-insensitive: a lower-case first letter
      chooses the same call, with the same arguments, as its upper case. */
  lemma DispatchIgnoresCase(command: string)
    requires command != [] && 'a' <= command[0] <= 'z'
    ensures Dispatch([UpperCase(command[0])] + command[1..]) == Dispatch(command)
  {
    var upper := [UpperCase(command[0])] + command[1..];
    assert command == [command[0]] + command[1..];
    SplitTailIgnoresFirstChar(command[0], UpperCase(command[0]), command[1..]);
    var a, b := Split(command), Split(upper);
    assert |a| >= 2 ==> a[1] == a[1..][0] && b[1] == b[1..][0];
    assert |a| >= 4 ==> a[2] == a[1..][1] && b[2] == b[1..][1] && a[3] == a[1..][2] && b[3] == b[1..][2];
  }

  /** The letter-to-call rule of `execute`, for a command of space-free
      tokens whose first token starts with the command letter: C and U take
      the user of tokens 1 to 3 (insert-only and update-only), R and D take
      the e-mail of token 1; with too few tokens the command only warns. */
  lemma DispatchFromTokens(ts: seq<string>)
    requires |ts| >= 1 && ts[0] != []
    requires forall i :: 0 <= i < |ts| ==> SpaceFree(ts[i])
    requires ts[|ts| - 1] != []
    ensures UpperCase(ts[0][0]) == 'C' ==>
      Dispatch(Join(ts)) == Success(if |ts| >= 4 then Create(User(ts[1], ts[2], ts[3])) else Warn)
    ensures UpperCase(ts[0][0]) == 'U' ==>
      Dispatch(Join(ts)) == Success(if |ts| >= 4 then Update(User(ts[1], ts[2], ts[3])) else Warn)
    ensures UpperCase(ts[0][0]) == 'R' ==>
      Dispatch(Join(ts)) == Success(if |ts| >= 2 then Read(ts[1]) else Warn)
    ensures UpperCase(ts[0][0]) == 'D' ==>
      Dispatch(Join(ts)) == Success(if |ts| >= 2 then Delete(ts[1]) else Warn)
  {
    SplitJoin(ts);
    assert Join(ts)[0] == ts[0][0];
  }

  /** Turns a service reply into the loop's answer: a failure escapes,
      anything else continues. */
  function Continue<R>(rep: Reply<R>): Reply<bool>
  {
    Reply(match rep.result case Failure(e) => Failure(e) case Success(_) => Success(true), rep.store)
  }

  /** The effect of performing `a` on the store: the service call it makes,
      and whether `execute` answers true (go on), false (quit) or throws. */
  function Perform(store: Store, a: Action): (rep: Reply<bool>)
    ensures rep.result == Success(false) <==> a == Quit
    ensures a != Quit && rep.result.Success? ==> rep.result == Success(true)
    ensures a.Create? ==> (rep.result.Failure? <==> InsertOnly(store, a.user).result.Failure?)
    ensures a.Create? && rep.result.Failure? ==> rep.result.error == InsertOnly(store, a.user).result.error
    ensures a.Update? ==> (rep.result.Failure? <==> UpdateOnly(store, a.user).result.Failure?)
    ensures a.Update? && rep.result.Failure? ==> rep.result.error == UpdateOnly(store, a.user).result.error
    ensures a.Read? ==> (rep.result.Failure? <==> FindUser(store, a.email).Failure?)
    ensures a.Read? && rep.result.Failure? ==> rep.result.error == FindUser(store, a.email).error
    ensures a.Read? || a.Warn? || a.Quit? || a.Ignore? ==> rep.store == store
    ensures a.Warn? || a.Quit? || a.Ignore? || a.Delete? ==> rep.result.Success?
    ensures a.Create? ==> rep.store == InsertOnly(store, a.user).store
    ensures a.Update? ==> rep.store == UpdateOnly(store, a.user).store
    ensures a.Delete? ==> rep.store == store - {a.email}
  {
    match a
    case Create(u) => Continue(InsertOnly(store, u))
    case Update(u) => Continue(UpdateOnly(store, u))
    case Read(email) => Continue(Reply(FindUser(store, email), store))
    case Delete(email) => Reply(Success(true), store - {email})
    case Warn => Reply(Success(true), store)
    case Ignore => Reply(Success(true), store)
    case Quit => Reply(Success(false), store)
  }

  /** How a run of the read loop ends: how many lines it read and the store
      it leaves. */
  datatype Session = Session(consumed: nat, store: Store)

  /** The read loop of `run` over the console lines `input`: each line is
      executed until one answers false (`Q`) or throws; the loop also ends
      when the input is exhausted. */
  function RunSession(store: Store, input: seq<string>): (s: Session)
    ensures s.consumed <= |input|
    ensures forall j :: 0 <= j < s.consumed - 1 ==>
      Dispatch(input[j]).Success? && Dispatch(input[j]).value != Quit
    decreases |input|
  {
    if input == [] then Session(0, store)
    else match Dispatch(input[0])
      case Failure(_) => Session(1, store)
      case Success(a) =>
        var rep := Perform(store, a);
        if rep.result == Success(true) then
          var rest := RunSession(rep.store, input[1..]);
          Session(rest.consumed + 1, rest.store)
        else Session(1, rep.store)
  }

  /** The loop reads no line after the first `Q` or empty command. */
  lemma {:induction false} SessionEndsAtQuitOrEmpty(store: Store, input: seq<string>, i: nat)
    requires i < |input|
    requires Dispatch(input[i]) == Success(Quit) || input[i] == []
    ensures RunSession(store, input).consumed <= i + 1
    decreases i
  {
    if i > 0 {
      match Dispatch(input[0])
      case Failure(_) =>
      case Success(a) =>
        var rep := Perform(store, a);
        if rep.result == Success(true) {
          assert input[1..][i - 1] == input[i];
          SessionEndsAtQuitOrEmpty(rep.store, input[1..], i - 1);
        }
    }
  }

  /** The store in effect when line `i` is executed, provided every earlier
      line let the loop go on. */
  function StoreBefore(store: Store, input: seq<string>, i: nat): Store
    decreases i
  {
    if i == 0 || input == [] then store
    else match Dispatch(input[0])
      case Failure(_) => store
      case Success(a) => StoreBefore(Perform(store, a).store, input[1..], i - 1)
  }

  /** Line `i` lets the loop go on: `execute` answers true on it. */
  predicate GoesOn(store: Store, input: seq<string>, i: nat)
    requires i < |input|
  {
    Dispatch(input[i]).Success? &&
    Perform(StoreBefore(store, input, i), Dispatch(input[i]).value).result == Success(true)
  }

  /** The loop stops right after the first line on which `execute` does not
      answer true: an empty command, `Q`, or a service call that throws. It
      leaves the store as that line left it. */
  lemma {:induction false} SessionStopsAtFirstStop(store: Store, input: seq<string>, i: nat)
    requires i < |input|
    requires forall j :: 0 <= j < i ==> GoesOn(store, input, j)
    requires !GoesOn(store, input, i)
    ensures RunSession(store, input).consumed == i + 1
    ensures RunSession(store, input).store ==
      match Dispatch(input[i])
      case Failure(_) => StoreBefore(store, input, i)
      case Success(a) => Perform(StoreBefore(store, input, i), a).store
    decreases i
  {
    if i > 0 {
      assert GoesOn(store, input, 0);
      var a := Dispatch(input[0]).value;
      var next := Perform(store, a).store;
      forall j | 0 <= j < i
        ensures input[1..][j] == input[j + 1] && StoreBefore(store, input, j + 1) == StoreBefore(next, input[1..], j)
      {
      }
      assert forall j :: 0 <= j < i - 1 ==> GoesOn(next, input[1..], j) by {
        forall j | 0 <= j < i - 1
          ensures GoesOn(next, input[1..], j)
        {
          assert GoesOn(store, input, j + 1);
        }
      }
      SessionStopsAtFirstStop(next, input[1..], i - 1);
    }
  }

  /** Line `j + 1` of `input` meets the store that line `j` of `input[1..]`
      meets once the first line has been performed. */
  lemma StoreBeforeNext(store: Store, input: seq<string>, j: nat)
    requires input != [] && Dispatch(input[0]).Success?
    ensures StoreBefore(store, input, j + 1) ==
      StoreBefore(Perform(store, Dispatch(input[0]).value).store, input[1..], j)
  {
  }

  /** When every line lets the loop go on, the loop reads all of them and
      ends when the input is exhausted, leaving the store the last line
      left. */
  lemma {:induction false} SessionReadsAllWhenAllGoOn(store: Store, input: seq<string>)
    requires forall j :: 0 <= j < |input| ==> GoesOn(store, input, j)
    ensures RunSession(store, input) == Session(|input|, StoreBefore(store, input, |input|))
    decreases |input|
  {
    if input != [] {
      assert GoesOn(store, input, 0);
      var a := Dispatch(input[0]).value;
      var next := Perform(store, a).store;
      forall j | 0 <= j < |input| - 1
        ensures GoesOn(next, input[1..], j)
      {
        StoreBeforeNext(store, input, j);
        assert GoesOn(store, input, j + 1);
        assert input[1..][j] == input[j + 1];
      }
      SessionReadsAllWhenAllGoOn(next, input[1..]);
      StoreBeforeNext(store, input, |input| - 1);
    }
  }

  /** A line whose service call throws is the last line read. */
  lemma SessionEndsAtException(store: Store, input: seq<string>, i: nat)
    requires i < |input|
    requires forall j :: 0 <= j < i ==> GoesOn(store, input, j)
    requires Dispatch(input[i]).Success?
    requires Perform(StoreBefore(store, input, i), Dispatch(input[i]).value).result.Failure?
    ensures RunSession(store, input).consumed == i + 1
    ensures RunSession(store, input).store == Perform(StoreBefore(store, input, i), Dispatch(input[i]).value).store
  {
    SessionStopsAtFirstStop(store, input, i);
  }

  /** Lines that make no service call and are not `Q` never end the loop:
      it reads past all of them. */
  lemma {:induction false} SessionPassesIgnoredLines(store: Store, input: seq<string>, k: nat)
    requires k <= |input|
    requires forall j :: 0 <= j < k ==> Dispatch(input[j]) == Success(Ignore) || Dispatch(input[j]) == Success(Warn)
    ensures RunSession(store, input).consumed >= k
    ensures k == |input| ==> RunSession(store, input) == Session(k, store)
  {
    if k > 0 {
      assert forall j :: 0 <= j < k - 1 ==> input[1..][j] == input[j + 1];
      SessionPassesIgnoredLines(store, input[1..], k - 1);
    } else if k == |input| {
      assert input == [];
    }
  }

  class Application {
    const service: UserService

    constructor (service: UserService)
      ensures this.service == service
    {
      this.service := service;
    }

    /** `execute(command)`: true to go on, false after `Q`; the exceptions
        of `substring` and of the service escape. */
    method Execute(command: string) returns (r: Result<bool, Exception>)
      modifies service.operations
      ensures Dispatch(command).Failure? ==>
        r == Failure(IndexOutOfBounds) && service.operations.store == old(service.operations.store)
      ensures Dispatch(command).Success? ==>
        Reply(r, service.operations.store) == Perform(old(service.operations.store), Dispatch(command).value)
    {
      if |command| == 0 {
        return Failure(IndexOutOfBounds);
      }
      r := Success(true);
      match UpperCase(command[0])
      case 'C' =>
        var user := GetUserFromStringCommand(command);
        if user.None? {
          return;
        }
        var response := service.SaveUser(user.value);
        if response.Failure? {
          return Failure(response.error);
        }
      case 'R' =>
        var email := GetEmailFromStringCommand(command);
        if email.None? {
          return;
        }
        var found := service.GetUserByEmail(email.value);
        if found.Failure? {
          return Failure(found.error);
        }
      case 'U' =>
        var user := GetUserFromStringCommand(command);
        if user.None? {
          return;
        }
        var response := service.UpdateUser(user.value);
        if response.Failure? {
          return Failure(response.error);
        }
      case 'D' =>
        var email := GetEmailFromStringCommand(command);
        if email.None? {
          return;
        }
        var number := service.DeleteUser(email.value);
      case 'Q' =>
        r := Success(false);
      case _ =>
    }

    /** `run`: executes one console line after another while `execute`
        answers true; `Q`, an exception, or the end of the input stops it. */
    method Run(input: seq<string>) returns (consumed: nat)
      modifies service.operations
      ensures Session(consumed, service.operations.store) == RunSession(old(service.operations.store), input)
    {
      var stay := true;
      consumed := 0;
      while stay
        invariant consumed <= |input|
        invariant stay ==>
          (var rest := RunSession(service.operations.store, input[consumed..]);
           RunSession(old(service.operations.store), input) == Session(rest.consumed + consumed, rest.store))
        invariant !stay ==>
          RunSession(old(service.operations.store), input) == Session(consumed, service.operations.store)
        decreases |input| - consumed, stay
      {
        if consumed == |input| {
          stay := false;
        } else {
          assert input[consumed..][1..] == input[consumed + 1..];
          var r := Execute(input[consumed]);
          consumed := consumed + 1;
          stay := r == Success(true);
        }
      }
    }
  }
}
