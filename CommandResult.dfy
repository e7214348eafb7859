/** What executing a command yields: feedback for the user, or the exception
    it raises. */
module Commands {

  /** The message of a `CommandException`. The two `Messages` constants are
      named, as their text is not part of this model. */
  datatype CommandError =
    | Text(message: string)
    | InvalidAccountDisplayedIndex
    | InvalidAccountDeletion

  datatype CommandResult =
    | Success(feedbackToUser: string)
    | CommandException(error: CommandError)
    | IoException
}
