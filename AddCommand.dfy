/** The command that adds a task: refuse a task whose identity is already in
    the task book, otherwise add it and commit the task book. */
module AddCommands {
  import opened Models
  import opened Commands

  /** `MESSAGE_SUCCESS` is this text followed by the added task. */
  const MessageSuccess: string := "New Task added: "
  const MessageDuplicatePerson: string := "This Task already exists in Tasketch"

  datatype AddCommand<Task(==)> = AddCommand(toAdd: Task)
  {
    /** Two add commands are equal exactly when they add equal tasks. */
    function Equals(other: AddCommand<Task>): (b: bool)
      ensures b <==> toAdd == other.toAdd
    {
      this == other
    }
  }

  /** `toString` stands for the task's `toString`. */
  method Execute<Task(==), Account(==)>(command: AddCommand<Task>, model: Model<Task, Account>,
                                        toString: Task -> string)
    returns (result: CommandResult)
    modifies model`tasks, model`commits
    ensures old(model.HasTask(command.toAdd)) ==>
      result == CommandException(Text(MessageDuplicatePerson)) &&
      model.tasks == old(model.tasks) && model.commits == old(model.commits)
    ensures !old(model.HasTask(command.toAdd)) ==>
      model.tasks == old(model.tasks) + [command.toAdd] &&
      model.commits == old(model.commits) + [model.tasks] &&
      (model.isSameTask(command.toAdd, command.toAdd) ==> model.HasTask(command.toAdd)) &&
      result == Success(MessageSuccess + toString(command.toAdd))
  {
    if model.HasTask(command.toAdd) {
      return CommandException(Text(MessageDuplicatePerson));
    }
    model.AddTask(command.toAdd);
    model.CommitTaskBook();
    assert model.tasks[|model.tasks| - 1] == command.toAdd;
    return Success(MessageSuccess + toString(command.toAdd));
  }
}
