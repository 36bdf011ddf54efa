/**
 * The attachment selection of `chat_respond`: the request names note
 * attachments by 1-based number, and the files of those that are in range
 * and still on disk are handed to the model, in request order and with
 * repeats. Joining a stored path onto the upload folder and asking whether
 * the file exists are parameters.
 */
module FileSelection {
  import opened RouteRules
  import opened Attachments

  /** One entry of `file_attachments`. */
  datatype FileAttachment = FileAttachment(filePath: string, filetype: FileType, filename: string)

  /** A number is kept when it names an attachment and that attachment's file exists. */
  predicate Kept(num: int, attachments: seq<Attachment>, join: string -> string, onDisk: string -> bool) {
    0 < num <= |attachments| && onDisk(join(attachments[num - 1].filepath))
  }

  function Entry(att: Attachment, join: string -> string): FileAttachment {
    FileAttachment(join(att.filepath), att.filetype, att.filename)
  }

  /** The entries for the kept numbers, in the order the numbers were given. */
  function Selection(numbers: seq<int>, attachments: seq<Attachment>, join: string -> string, onDisk: string -> bool)
    : (r: seq<FileAttachment>)
  {
    if numbers == [] then []
    else
      var num := numbers[|numbers| - 1];
      Selection(numbers[..|numbers| - 1], attachments, join, onDisk)
        + (if Kept(num, attachments, join, onDisk) then [Entry(attachments[num - 1], join)] else [])
  }

  /** No more entries than numbers. */
  lemma {:induction false} SelectionBounded(numbers: seq<int>, attachments: seq<Attachment>, join: string -> string, onDisk: string -> bool)
    ensures |Selection(numbers, attachments, join, onDisk)| <= |numbers|
  {
    if numbers != [] {
      SelectionBounded(numbers[..|numbers| - 1], attachments, join, onDisk);
    }
  }

  /** Selecting from a concatenation is selecting from each part: order is kept. */
  lemma {:induction false} SelectionConcat(a: seq<int>, b: seq<int>, attachments: seq<Attachment>, join: string -> string, onDisk: string -> bool)
    ensures Selection(a + b, attachments, join, onDisk)
      == Selection(a, attachments, join, onDisk) + Selection(b, attachments, join, onDisk)
  {
    if b == [] {
      assert a + b == a;
    } else {
      assert (a + b)[..|a + b| - 1] == a + b[..|b| - 1];
      SelectionConcat(a, b[..|b| - 1], attachments, join, onDisk);
    }
  }

  /** When every number is kept, entry `i` is the attachment numbered `numbers[i]`, repeats included. */
  lemma {:induction false} SelectionOfKept(numbers: seq<int>, attachments: seq<Attachment>, join: string -> string, onDisk: string -> bool)
    requires forall i :: 0 <= i < |numbers| ==>
      0 < numbers[i] <= |attachments| && onDisk(join(attachments[numbers[i] - 1].filepath))
    ensures |Selection(numbers, attachments, join, onDisk)| == |numbers|
    ensures forall i :: 0 <= i < |numbers| ==>
      Selection(numbers, attachments, join, onDisk)[i] == Entry(attachments[numbers[i] - 1], join)
  {
    if numbers != [] {
      var front := numbers[..|numbers| - 1];
      var last := numbers[|numbers| - 1];
      assert forall i :: 0 <= i < |front| ==> front[i] == numbers[i];
      SelectionOfKept(front, attachments, join, onDisk);
      assert Kept(last, attachments, join, onDisk);
      assert Selection(numbers, attachments, join, onDisk)
        == Selection(front, attachments, join, onDisk) + [Entry(attachments[last - 1], join)];
    }
  }

  /** Numbers out of range or naming missing files contribute nothing. */
  lemma {:induction false} SelectionOfDropped(numbers: seq<int>, attachments: seq<Attachment>, join: string -> string, onDisk: string -> bool)
    requires forall i :: 0 <= i < |numbers| ==> !Kept(numbers[i], attachments, join, onDisk)
    ensures Selection(numbers, attachments, join, onDisk) == []
  {
    if numbers != [] {
      SelectionOfDropped(numbers[..|numbers| - 1], attachments, join, onDisk);
    }
  }

  /**
   * The loop over `file_numbers`: `files` is `file_attachments` and
   * `analyzed` is `analyzed_files`, the name of each selected file.
   */
  method SelectFiles(numbers: seq<int>, attachments: seq<Attachment>, join: string -> string, onDisk: string -> bool)
    returns (analyzed: seq<string>, files: seq<FileAttachment>)
    ensures files == Selection(numbers, attachments, join, onDisk)
    ensures |analyzed| == |files| <= |numbers|
    ensures forall i :: 0 <= i < |files| ==> analyzed[i] == files[i].filename
  {
    analyzed := [];
    files := [];
    for k := 0 to |numbers|
      invariant files == Selection(numbers[..k], attachments, join, onDisk)
      invariant |analyzed| == |files| <= k
      invariant forall i :: 0 <= i < |files| ==> analyzed[i] == files[i].filename
    {
      assert numbers[..k + 1][..k] == numbers[..k];
      var num := numbers[k];
      if 0 < num <= |attachments| {
        var att := attachments[num - 1];
        var filePath := join(att.filepath);
        if onDisk(filePath) {
          analyzed := analyzed + [att.filename];
          files := files + [FileAttachment(filePath, att.filetype, att.filename)];
        }
      }
    }
    assert numbers[..|numbers|] == numbers;
  }
}
