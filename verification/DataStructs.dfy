/** The records of lib/datastructs.h: commands and queued messages. */
module DataStructs {

  datatype Option<T> = None | Some(value: T)

  datatype Command = SEND | RECV | UPDATE | GET_PEERS | HOST | END | ERR | EXIT

  class Message {
    const content: string
    const date: string
    const cmd: Command
    var next: Message?

    constructor (content: string, date: string, cmd: Command)
      ensures this.content == content && this.date == date && this.cmd == cmd
      ensures next == null
    {
      this.content, this.date, this.cmd := content, date, cmd;
      next := null;
    }
  }
}
