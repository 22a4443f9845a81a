/** The `SimpleSerial` helper of the USB UART Click driver: it cuts the text
    arriving from a UART into delimiter-terminated messages and keeps the
    unterminated tail for the next read. The UART itself is not modelled: the
    text one `ReadExisting` call returns is a parameter of `Deserialize`. */
module UsbUart {
  import opened StringSplit
  import opened Framing

  datatype Option<T> = None | Some(value: T)

  /** Carriage return followed by line feed, the default delimiter. */
  const DefaultDelimiter: string := "\r\n"

  class SimpleSerial {
    /** The `_remainder` field, read through the `Remainder` property: `None`
        stands for the null reference it holds until `Enable` or
        `Deserialize` first assigns it. */
    var remainder: Option<string>

    /** The port wrapper starts with no remainder. */
    constructor()
      ensures remainder == None
    {
      remainder := None;
    }

    /** The text that `_remainder + ReadExisting()` puts in front of the new
        chunk: concatenating a null string adds nothing. */
    function PendingText(): string
      reads this
    {
      match remainder
      case None => ""
      case Some(text) => text
    }

    /** Opening the port clears the remainder. */
    method Enable()
      modifies this
      ensures remainder == Some("")
    {
      remainder := Some("");
    }

    /** Splits the stored remainder followed by the newly read `chunk` into
        complete messages, without their delimiters, and stores the new
        unterminated tail. */
    method Deserialize(chunk: string, delimiter: string := DefaultDelimiter) returns (messages: array<string>)
      modifies this
      ensures fresh(messages)
      ensures messages[..] == SplitMessages(old(PendingText()) + chunk, delimiter, false)
      ensures remainder == Some(SplitRemainder(old(PendingText()) + chunk, delimiter))
    {
      var rest;
      messages, rest := SplitString(PendingText() + chunk, delimiter);
      remainder := Some(rest);
    }

    /** Splits `input` on every character of `delimiter`: the complete
        messages, with the delimiter appended when `includeDelimiterInOutput`
        holds, and the unterminated tail. */
    static method SplitString(input: string, delimiter: string := DefaultDelimiter, includeDelimiterInOutput: bool := false)
      returns (output: array<string>, remainder: string)
      ensures fresh(output)
      ensures output[..] == SplitMessages(input, delimiter, includeDelimiterInOutput)
      ensures remainder == SplitRemainder(input, delimiter)
    {
      var segments := Split(input, delimiter);
      var prelimOutput := new string[|segments|](i requires 0 <= i < |segments| => segments[i]);
      var last := prelimOutput.Length - 1;
      if prelimOutput[last] == "" {
        remainder := "";
      } else {
        remainder := prelimOutput[last];
        prelimOutput[last] := "";
      }
      assert prelimOutput[..] == segments[..last] + [""];
      output := ScrubStringArray(prelimOutput, "", if includeDelimiterInOutput then delimiter else "");
    }

    /** The entries of `input` different from `removeString`, in order, each
        with `delimiter` appended, in a new array. */
    static method ScrubStringArray(input: array<string>, removeString: string := "", delimiter: string := DefaultDelimiter)
      returns (output: array<string>)
      ensures fresh(output)
      ensures output[..] == Scrub(input[..], removeString, delimiter)
    {
      var numOutputElements := 0;
      for k := 0 to input.Length
        invariant numOutputElements == |Scrub(input[..k], removeString, delimiter)|
      {
        assert input[..k + 1][..k] == input[..k];
        if input[k] != removeString {
          numOutputElements := numOutputElements + 1;
        }
      }
      assert input[..input.Length] == input[..];
      output := new string[numOutputElements];
      var m := 0;
      for k := 0 to input.Length
        invariant m == |Scrub(input[..k], removeString, delimiter)|
        invariant m <= output.Length
        invariant output[..m] == Scrub(input[..k], removeString, delimiter)
      {
        assert input[..k + 1][..k] == input[..k];
        ScrubPrefix(input[..], k + 1, removeString, delimiter);
        if input[k] == removeString {
          continue;
        }
        output[m] := input[k] + delimiter;
        m := m + 1;
      }
    }
  }

  /** After `Enable`, one `Deserialize` of `chunk` returns what `SplitString`
      returns for `chunk` alone and leaves its remainder: whatever the port
      held before is forgotten. */
  method EnableThenDeserialize(port: SimpleSerial, chunk: string, delimiter: string)
    returns (messages: array<string>, direct: array<string>, directRemainder: string)
    modifies port
    ensures fresh(messages) && fresh(direct) && messages != direct
    ensures messages[..] == SplitMessages(chunk, delimiter, false)
    ensures port.remainder == Some(SplitRemainder(chunk, delimiter))
    ensures direct[..] == messages[..]
    ensures directRemainder == SplitRemainder(chunk, delimiter)
  {
    port.Enable();
    assert port.PendingText() + chunk == chunk;
    messages := port.Deserialize(chunk, delimiter);
    direct, directRemainder := SimpleSerial.SplitString(chunk, delimiter);
  }

  /** Two `Deserialize` calls, on `first` and then on `second`, return between
      them the messages one call on `first + second` would return, and leave
      the same remainder: where the UART read happened to cut the text does
      not matter. */
  method DeserializeTwoChunks(port: SimpleSerial, first: string, second: string, delimiter: string)
    returns (firstMessages: array<string>, secondMessages: array<string>)
    modifies port
    ensures fresh(firstMessages) && fresh(secondMessages) && firstMessages != secondMessages
    ensures firstMessages[..] + secondMessages[..] == SplitMessages(old(port.PendingText()) + first + second, delimiter, false)
    ensures port.remainder == Some(SplitRemainder(old(port.PendingText()) + first + second, delimiter))
  {
    ghost var start := port.PendingText();
    firstMessages := port.Deserialize(first, delimiter);
    secondMessages := port.Deserialize(second, delimiter);
    SplitAppend(start + first, second, delimiter);
  }
}
