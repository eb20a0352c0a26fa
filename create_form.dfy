/** The form for a new anecdote: three text fields and a flag that, once set,
    sends the view back to the list. */
module CreateNew {
  import opened Wrappers
  import opened Numerals
  import opened Anecdotes
  import opened AppState

  /** The confirmation message a submission sets. */
  function Message(content: string): (m: string)
    ensures |m| == |content| + 23
    ensures m[..15] == "a new anecdote " && m[|m| - 8..] == " created"
    ensures m[15..|m| - 8] == content
  {
    "a new anecdote " + content + " created"
  }

  /** Different contents give different messages. */
  lemma MessageInjective(a: string, b: string)
    requires Message(a) == Message(b)
    ensures a == b
  {
  }

  class CreateForm {
    var content: string
    var author: string
    var info: string
    var submitted: bool

    /** A fresh form: empty fields, not submitted. */
    constructor ()
      ensures content == "" && author == "" && info == "" && !submitted
    {
      content, author, info := "", "", "";
      submitted := false;
    }

    /** The input handlers: copy the typed text into one field. */
    method SetContent(text: string)
      modifies this`content
      ensures content == text
    {
      content := text;
    }

    method SetAuthor(text: string)
      modifies this`author
      ensures author == text
    {
      author := text;
    }

    method SetInfo(text: string)
      modifies this`info
      ensures info == text
    {
      info := text;
    }

    /** `handleSubmit`: hand the store a record of the three fields with no
        votes (its id is stamped from the draw `n`), mark the form submitted
        and set the confirmation message. */
    method HandleSubmit(store: Store, n: nat)
      requires n <= 10000
      modifies this`submitted, store
      ensures store.anecdotes == old(store.anecdotes) + [Anecdote(content, author, info, 0, Decimal(n))]
      ensures store.notification == Some(Message(content))
      ensures submitted
      ensures content == old(content) && author == old(author) && info == old(info)
    {
      store.AddNew(Anecdote(content, author, info, 0, ""), n);
      submitted := true;
      store.SetNotification(Message(content));
    }
  }
}
