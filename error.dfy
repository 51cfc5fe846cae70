/** The interpreter's error type: a failure of the byte streams, or the one
    syntax error, a `]` that closes no open `[`. */
module Errors {
  import opened Fmt

  /** The kinds of standard I/O failure the interpreter can meet. */
  datatype IoErrorKind = UnexpectedEof | OtherKind

  /** A standard I/O error, reduced to its kind and the text its `Display` shows. */
  datatype IoError = IoError(kind: IoErrorKind, text: string)

  datatype Error = Io(io: IoError) | Syntax(message: string)

  /** The result of a fallible operation; `Result<()>` is what `main` returns. */
  datatype Result<T> = Ok(value: T) | Err(error: Error)

  /** The fixed first part of the unmatched-`]` message (the spelling is the program's). */
  const UnmatchedCloserPrefix: string := "Found a ] with no correspoding [ at byte: "

  /** `From<io::Error>`: what `?` does to an I/O failure. */
  function FromIo(e: IoError): (r: Error)
    ensures r.Io? && r.io == e
  {
    Io(e)
  }

  /** `From<String>`: a message becomes a syntax error carrying it. */
  function FromString(s: string): (r: Error)
    ensures r.Syntax? && r.message == s
  {
    Syntax(s)
  }

  /** The error for a `]` at offset `byte` that has no open `[` to return to. */
  function AtByte(byte: nat): (r: Error)
    ensures r.Syntax?
    ensures |r.message| > |UnmatchedCloserPrefix|
    ensures r.message[..|UnmatchedCloserPrefix|] == UnmatchedCloserPrefix
    ensures IsNatText(r.message[|UnmatchedCloserPrefix|..])
  {
    FromString(UnmatchedCloserPrefix + IntText(byte))
  }

  /** The text `Display` writes for an error. */
  function Display(e: Error): string {
    match e
    case Io(io) => io.text
    case Syntax(message) => message
  }

  /** A message wrapped by `From<String>` is shown unchanged. */
  lemma DisplayFromString(s: string)
    ensures Display(FromString(s)) == s
  {
  }

  /** An I/O failure is shown as the I/O error itself shows, and it is never
      mistaken for a syntax error carrying the same text. */
  lemma DisplayFromIo(e: IoError)
    ensures Display(FromIo(e)) == e.text
    ensures forall s :: FromIo(e) != FromString(s)
  {
  }

  /** The offset can be read back from the shown message of `AtByte`. */
  lemma AtByteOffsetReadable(byte: nat)
    ensures Display(AtByte(byte))[..|UnmatchedCloserPrefix|] == UnmatchedCloserPrefix
    ensures IntValue(Display(AtByte(byte))[|UnmatchedCloserPrefix|..]) == byte
  {
    var m := Display(AtByte(byte));
    assert m[|UnmatchedCloserPrefix|..] == IntText(byte);
    IntTextRoundTrip(byte);
  }

  /** Errors for different offsets are different errors. */
  lemma AtByteInjective(a: nat, b: nat)
    ensures AtByte(a) == AtByte(b) <==> a == b
  {
    if AtByte(a) == AtByte(b) {
      AtByteOffsetReadable(a);
      AtByteOffsetReadable(b);
    }
  }
}
