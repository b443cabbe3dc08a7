/**
 * The process's two output streams. Each is the sequence of printf calls
 * made on it so far, one element per call, holding the text of the call
 * without its trailing newline. A call's text is one output line unless a
 * path it prints holds a newline.
 */
module Output {

  /** Standard output and standard error, as the printf calls made on each. */
  class Console {
    var out: seq<string>
    var err: seq<string>

    constructor ()
      ensures out == [] && err == []
    {
      out, err := [], [];
    }

    /** printf(...) of one line on standard output. */
    method PrintOut(line: string)
      modifies this
      ensures out == old(out) + [line] && err == old(err)
    {
      out := out + [line];
    }

    /** fprintf(stderr, ...) of one line on standard error. */
    method PrintErr(line: string)
      modifies this
      ensures err == old(err) + [line] && out == old(out)
    {
      err := err + [line];
    }
  }
}
