/** The application state the commands act on, reduced to what the add-task
    and delete-account commands read and change. Task and account internals
    are type parameters; identity and usernames are supplied functions. */
module Models {
  import opened Identity

  /** `s` without its first element equal to `x`; `s` itself when there is none. */
  function RemoveFirst<T(==)>(s: seq<T>, x: T): (r: seq<T>)
    ensures x !in s ==> r == s
    ensures x in s ==> |r| == |s| - 1 && multiset(r) == multiset(s) - multiset{x}
  {
    var k := IndexOf(s, x);
    if k == -1 then s
    else
      assert s == s[..k] + [s[k]] + s[k + 1..];
      s[..k] + s[k + 1..]
  }

  /** Removing the element at `k` of a list without repeated elements takes out
      exactly that position. */
  lemma RemoveFirstAt<T>(s: seq<T>, k: nat)
    requires k < |s|
    requires forall i, j :: 0 <= i < j < |s| ==> s[i] != s[j]
    ensures RemoveFirst(s, s[k]) == s[..k] + s[k + 1..]
  {
    var f := IndexOf(s, s[k]);
    assert f == k;
  }

  /** Removing an element whose username differs from `user` keeps every
      account of `user`. */
  lemma RemoveFirstKeepsOthers<T>(s: seq<T>, x: T, username: T -> string, user: string)
    requires username(x) != user
    ensures forall a :: a in s && username(a) == user ==> a in RemoveFirst(s, x)
  {
    if x in s {
      var k := IndexOf(s, x);
      forall a | a in s && username(a) == user ensures a in RemoveFirst(s, x) {
        var i :| 0 <= i < |s| && s[i] == a;
        if i < k {
          assert RemoveFirst(s, x)[i] == a;
        } else {
          assert RemoveFirst(s, x)[i - 1] == a;
        }
      }
    }
  }

  class Model<Task(==), Account(==)> {
    /** The task book. */
    var tasks: seq<Task>
    /** Task-book states recorded by `commitTaskBook`, oldest first. */
    var commits: seq<seq<Task>>
    /** The filtered account list as displayed. */
    var accounts: seq<Account>
    var loginStatus: bool
    var loggedInUser: string
    /** Account lists written out by `exportFilteredAccountList`, oldest first. */
    var exports: seq<seq<Account>>
    /** `isSameTask(x, y)` stands for `x.isSameTask(y)`. */
    const isSameTask: (Task, Task) -> bool
    /** `username(a)` stands for `a.getUsername().toString()`. */
    const username: Account -> string

    constructor (isSameTask: (Task, Task) -> bool, username: Account -> string,
                 accounts: seq<Account>, loginStatus: bool, loggedInUser: string)
      ensures this.isSameTask == isSameTask && this.username == username
      ensures tasks == [] && commits == [] && exports == []
      ensures this.accounts == accounts && this.loginStatus == loginStatus && this.loggedInUser == loggedInUser
    {
      this.isSameTask := isSameTask;
      this.username := username;
      this.accounts := accounts;
      this.loginStatus := loginStatus;
      this.loggedInUser := loggedInUser;
      tasks, commits, exports := [], [], [];
    }

    /** Some task in the book has the identity of `task`. */
    function HasTask(task: Task): (b: bool)
      reads this
      ensures b <==> exists i :: 0 <= i < |tasks| && isSameTask(task, tasks[i])
    {
      AnyMatch(isSameTask, tasks, task)
    }

    method AddTask(task: Task)
      modifies this`tasks
      ensures tasks == old(tasks) + [task]
    {
      tasks := tasks + [task];
    }

    method CommitTaskBook()
      modifies this`commits
      ensures commits == old(commits) + [tasks]
    {
      commits := commits + [tasks];
    }

    method DeleteAccount(target: Account)
      modifies this`accounts
      ensures accounts == RemoveFirst(old(accounts), target)
    {
      accounts := RemoveFirst(accounts, target);
    }

    /** Writes the account list out; `ioFails` is the file system's answer. */
    method ExportFilteredAccountList(ioFails: bool) returns (written: bool)
      modifies this`exports
      ensures written == !ioFails
      ensures exports == if written then old(exports) + [accounts] else old(exports)
    {
      written := !ioFails;
      if written {
        exports := exports + [accounts];
      }
    }
  }
}
