/** The command that deletes the account at a displayed index: the user must
    be logged in, the index must be in range and the account must not be the
    logged-in user's own; then the account is deleted and the list exported. */
module DeleteAccountCommands {
  import opened Models
  import opened Commands
  import opened Options

  /** `MESSAGE_DELETE_ACCOUNT_SUCCESS` is this text followed by the account. */
  const MessageDeleteAccountSuccess: string := "Deleted Account: "
  const MessageLogin: string := "Please login first"

  /** `targetIndex` is the zero-based index into the displayed account list. */
  datatype DeleteAccountCommand = DeleteAccountCommand(targetIndex: nat)
  {
    /** Two delete-account commands are equal exactly when their indices are. */
    function Equals(other: DeleteAccountCommand): (b: bool)
      ensures b <==> targetIndex == other.targetIndex
    {
      this == other
    }
  }

  /** The error the guards raise, in the order they run, or None when all pass. */
  function Guard<Account>(loginStatus: bool, accounts: seq<Account>, targetIndex: nat,
                          username: Account -> string, loggedInUser: string): (e: Option<CommandError>)
    ensures !loginStatus ==> e == Some(Text(MessageLogin))
    ensures loginStatus && targetIndex >= |accounts| ==> e == Some(InvalidAccountDisplayedIndex)
    ensures loginStatus && targetIndex < |accounts| ==>
      (e == Some(InvalidAccountDeletion) <==> username(accounts[targetIndex]) == loggedInUser)
    ensures e == None <==> loginStatus && targetIndex < |accounts| && username(accounts[targetIndex]) != loggedInUser
  {
    if !loginStatus then Some(Text(MessageLogin))
    else if targetIndex >= |accounts| then Some(InvalidAccountDisplayedIndex)
    else if username(accounts[targetIndex]) == loggedInUser then Some(InvalidAccountDeletion)
    else None
  }

  /** `toString` stands for the account's `toString`; `ioFails` is the outcome
      of writing the account list to its file. */
  method Execute<Task(==), Account(==)>(command: DeleteAccountCommand, model: Model<Task, Account>,
                                        toString: Account -> string, ioFails: bool)
    returns (result: CommandResult)
    modifies model`accounts, model`exports
    ensures var e := Guard(old(model.loginStatus), old(model.accounts), command.targetIndex,
                           model.username, model.loggedInUser);
      e.Some? ==> result == CommandException(e.value) &&
                  model.accounts == old(model.accounts) && model.exports == old(model.exports)
    ensures var e := Guard(old(model.loginStatus), old(model.accounts), command.targetIndex,
                           model.username, model.loggedInUser);
      e.None? ==>
        var item := old(model.accounts)[command.targetIndex];
        model.accounts == RemoveFirst(old(model.accounts), item) &&
        (ioFails ==> result == IoException && model.exports == old(model.exports)) &&
        (!ioFails ==> result == Success(MessageDeleteAccountSuccess + toString(item)) &&
                      model.exports == old(model.exports) + [model.accounts])
  {
    if !model.loginStatus {
      return CommandException(Text(MessageLogin));
    }
    var lastShownList := model.accounts;
    if command.targetIndex >= |lastShownList| {
      return CommandException(InvalidAccountDisplayedIndex);
    }
    var itemToDelete := lastShownList[command.targetIndex];
    if model.username(itemToDelete) == model.loggedInUser {
      return CommandException(InvalidAccountDeletion);
    }
    model.DeleteAccount(itemToDelete);
    var written := model.ExportFilteredAccountList(ioFails);
    if !written {
      return IoException;
    }
    return Success(MessageDeleteAccountSuccess + toString(itemToDelete));
  }

  /** No guard protects the last account: the sole account of a one-element
      list, when it is not the user's own, passes every guard and is deleted. */
  lemma SoleAccountDeleted<Account>(a: Account, username: Account -> string, loggedInUser: string)
    requires username(a) != loggedInUser
    ensures Guard(true, [a], 0, username, loggedInUser) == None
    ensures RemoveFirst([a], [a][0]) == []
  {
  }

  /** A successful deletion never removes an account of the logged-in user,
      and on a list without repeats it removes exactly the selected position. */
  lemma DeletionSpareLoggedInUser<Account>(accounts: seq<Account>, targetIndex: nat,
                                           username: Account -> string, loggedInUser: string)
    requires Guard(true, accounts, targetIndex, username, loggedInUser) == None
    ensures forall a :: a in accounts && username(a) == loggedInUser ==>
      a in RemoveFirst(accounts, accounts[targetIndex])
    ensures (forall i, j :: 0 <= i < j < |accounts| ==> accounts[i] != accounts[j]) ==>
      RemoveFirst(accounts, accounts[targetIndex]) == accounts[..targetIndex] + accounts[targetIndex + 1..]
  {
    RemoveFirstKeepsOthers(accounts, accounts[targetIndex], username, loggedInUser);
    if forall i, j :: 0 <= i < j < |accounts| ==> accounts[i] != accounts[j] {
      RemoveFirstAt(accounts, targetIndex);
    }
  }
}
