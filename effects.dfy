/** The runtime a CI script sees, reduced to values: the files it can read, and the
    ordered record of what it asks the runtime to do. */
module Effects {

  datatype Option<+T> = None | Some(value: T) {
    function GetOr(default: T): T {
      match this
      case Some(v) => v
      case None => default
    }
  }

  /** One call a script makes into its runtime. */
  datatype Action =
    | Info(message: string)                  // core.info: a log line
    | SetFailed(message: string)             // core.setFailed: marks the step failed; the script goes on
    | PostComment(body: string)              // github.rest.issues.createComment on the current pull request
    | SetOutput(key: string, value: string)  // core.setOutput: an output for later steps

  /** How the script's exported function ended: it returned, or an exception it did not
      catch escaped from reading the file at `path`. */
  datatype Exit = Returned | Threw(path: string)

  /** The actions performed, in order, and how the function ended. */
  datatype Execution = Execution(trace: seq<Action>, exit: Exit)

  /** The files a script can read, already decoded as UTF-8 text; a path that is not
      a key cannot be read (missing or unreadable alike). */
  type FileSystem = map<string, string>

  function ReadFile(fs: FileSystem, path: string): Option<string> {
    if path in fs then Some(fs[path]) else None
  }

  datatype Kind = InfoKind | FailKind | PostKind | OutputKind

  function KindOf(a: Action): Kind {
    match a
    case Info(_) => InfoKind
    case SetFailed(_) => FailKind
    case PostComment(_) => PostKind
    case SetOutput(_, _) => OutputKind
  }

  /** How many actions of kind `k` a trace holds. */
  function Count(trace: seq<Action>, k: Kind): nat {
    if trace == [] then 0
    else (if KindOf(trace[0]) == k then 1 else 0) + Count(trace[1..], k)
  }

  lemma {:induction false} CountConcat(a: seq<Action>, b: seq<Action>, k: Kind)
    ensures Count(a + b, k) == Count(a, k) + Count(b, k)
    decreases |a|
  {
    if a == [] {
      assert a + b == b;
    } else {
      assert (a + b)[0] == a[0];
      assert (a + b)[1..] == a[1..] + b;
      CountConcat(a[1..], b, k);
    }
  }

  lemma CountSingle(x: Action, k: Kind)
    ensures Count([x], k) == if KindOf(x) == k then 1 else 0
  {
    assert [x][1..] == [];
  }

  lemma CountPair(x: Action, y: Action, k: Kind)
    ensures Count([x, y], k) == Count([x], k) + Count([y], k)
  {
    assert [x, y] == [x] + [y];
    CountConcat([x], [y], k);
  }

  lemma CountTriple(x: Action, y: Action, z: Action, k: Kind)
    ensures Count([x, y, z], k) == Count([x], k) + Count([y], k) + Count([z], k)
  {
    assert [x, y, z] == [x, y] + [z];
    CountConcat([x, y], [z], k);
    CountPair(x, y, k);
  }
}
