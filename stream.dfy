/** The text stream the encoder and the cursor writer write to: only
    `write` is used, and every write appends. */
module Stream {

  class Output {
    var text: string

    constructor ()
      ensures text == []
    {
      text := [];
    }

    method Write(s: string)
      modifies this
      ensures text == old(text) + s
    {
      text := text + s;
    }
  }
}
