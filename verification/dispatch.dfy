/**
 * The mail watcher: one pass over the capture files in the watch directory,
 * one message per file, and deletion of each file whose `try` block ran to
 * its end.
 *
 * The directory is a map from file name to entry; an entry the process cannot
 * read stands for any failure of `open`/`read`. Whether the `try` block of
 * `send_email` runs to its end for a file in this pass (login, `send_message`,
 * the progress line and the SMTP `QUIT` on leaving the `with`) is the
 * parameter `delivers`.
 */
module Dispatch {
  import opened Wrappers
  import opened PathNames

  const Sender: string := "<SENDER>@gmail.com"
  const Receiver: string := "<RECEIVER>"
  const SubjectPrefix: string := "Bird detected - "
  const BodyText: string := "Bird detected. Image attached."

  type Bytes = seq<bv8>

  datatype Entry = Readable(content: Bytes) | Unreadable

  type Directory = map<string, Entry>

  datatype Part =
    | Text(text: string, textSubtype: string)
    | Image(payload: Bytes, imageSubtype: string, filename: string)

  datatype Message = Message(sender: string, receiver: string, subject: string, parts: seq<Part>)

  /** The subject: the fixed prefix and the last `_`-separated field of the stem. */
  function Subject(name: string): string {
    SubjectPrefix + LastField(Stem(name))
  }

  /** The number of image attachments among the parts of a message. */
  function ImageCount(parts: seq<Part>): nat
    decreases |parts|
  {
    if parts == [] then 0 else (if parts[0].Image? then 1 else 0) + ImageCount(parts[1..])
  }

  /**
   * A plain-text part followed by the PNG bytes attached under the file's own
   * name: exactly one attachment, carrying the file's name and content.
   */
  function BuildMessage(name: string, content: Bytes): (m: Message)
    ensures m.subject == Subject(name)
    ensures |m.parts| == 2 && m.parts[0] == Text(BodyText, "plain")
    ensures ImageCount(m.parts) == 1
    ensures m.parts[1].Image? && m.parts[1].filename == name && m.parts[1].payload == content
  {
    var parts := [Text(BodyText, "plain"), Image(content, "png", name)];
    assert ImageCount(parts) == 1 by {
      assert parts[1..] == [Image(content, "png", name)];
      assert parts[1..][1..] == [];
      assert ImageCount(parts[1..]) == 1;
    }
    Message(Sender, Receiver, Subject(name), parts)
  }

  /** Reading the image happens before the `try`, so its failure escapes. */
  datatype SendError = ReadFailed(name: string)

  /**
   * `send_email`: read the file (a failure propagates), build the message,
   * then send; the file is deleted exactly when the `try` block ran to its end
   * (`delivered`), and any failure inside it is swallowed. `AfterSendRemoves` states that no other file changes.
   */
  function SendEmail(dir: Directory, name: string, delivered: bool): (r: Result<(Directory, Message), SendError>)
    ensures r.Err? <==> name !in dir || dir[name].Unreadable?
    ensures r.Err? ==> r.error == ReadFailed(name)
    ensures r.Ok? ==>
      && (name in r.value.0 <==> !delivered)
      && r.value.1 == BuildMessage(name, dir[name].content)
  {
    if name !in dir || dir[name].Unreadable? then Err(ReadFailed(name))
    else Ok((if delivered then dir - {name} else dir, BuildMessage(name, dir[name].content)))
  }

  /** The pass so far removed exactly the delivered files among `names`, and nothing else changed. */
  ghost predicate RemovedDelivered(dir: Directory, after: Directory, names: seq<string>, delivers: string -> bool) {
    && (forall n :: n in after <==> n in dir && !(n in names && delivers(n)))
    && (forall n :: n in after ==> after[n] == dir[n])
  }

  /** Handling the first file, then the rest of the listing, handles the whole listing. */
  lemma RemovedDeliveredCompose(dir: Directory, after: Directory, final: Directory, names: seq<string>,
                                delivers: string -> bool)
    requires names != [] && names[0] !in names[1..]
    requires RemovedDelivered(dir, after, [names[0]], delivers)
    requires RemovedDelivered(after, final, names[1..], delivers)
    ensures RemovedDelivered(dir, final, names, delivers)
  {
    forall n
      ensures n in final <==> n in dir && !(n in names && delivers(n))
    {
      assert n in names <==> n == names[0] || n in names[1..] by {
        assert names == [names[0]] + names[1..];
      }
    }
  }

  /** No name occurs twice. */
  predicate Distinct(names: seq<string>) {
    names == [] || (names[0] !in names[1..] && Distinct(names[1..]))
  }

  datatype PassResult =
    | Completed(disk: Directory, outbox: seq<Message>)
    | Crashed(at: nat, disk: Directory, outbox: seq<Message>)

  /**
   * The loop body of `main` over a listing: one `send_email` per name, in
   * listing order, stopping at the first read failure.
   */
  function SendEach(dir: Directory, names: seq<string>, delivers: string -> bool): (r: PassResult)
    ensures r.Crashed? ==> r.at < |names|
    decreases |names|
  {
    if names == [] then Completed(dir, [])
    else
      var name := names[0];
      match SendEmail(dir, name, delivers(name))
      case Err(_) => Crashed(0, dir, [])
      case Ok((after, m)) =>
        match SendEach(after, names[1..], delivers)
        case Completed(disk, ms) => Completed(disk, [m] + ms)
        case Crashed(k, disk, ms) => Crashed(k + 1, disk, [m] + ms)
  }

  /** The directory after `send_email` on a readable file. */
  function AfterSend(dir: Directory, name: string, delivered: bool): Directory {
    if delivered then dir - {name} else dir
  }

  lemma AfterSendRemoves(dir: Directory, name: string, delivers: string -> bool)
    requires name in dir && dir[name].Readable?
    ensures SendEmail(dir, name, delivers(name)) ==
      Ok((AfterSend(dir, name, delivers(name)), BuildMessage(name, dir[name].content)))
    ensures RemovedDelivered(dir, AfterSend(dir, name, delivers(name)), [name], delivers)
  {
  }

  /** How a pass over a listing that starts with a readable file relates to the pass over the rest. */
  lemma SendEachStep(dir: Directory, names: seq<string>, delivers: string -> bool)
    requires names != [] && names[0] in dir && dir[names[0]].Readable?
    ensures var r, r' := SendEach(dir, names, delivers),
                         SendEach(AfterSend(dir, names[0], delivers(names[0])), names[1..], delivers);
      && r.Completed? == r'.Completed?
      && r.disk == r'.disk
      && r.outbox == [BuildMessage(names[0], dir[names[0]].content)] + r'.outbox
      && (r.Crashed? ==> r.at == r'.at + 1)
  {
    AfterSendRemoves(dir, names[0], delivers);
  }

  /** Every listed name is in the directory. */
  predicate AllIn(dir: Directory, names: seq<string>) {
    names == [] || (names[0] in dir && AllIn(dir, names[1..]))
  }

  /** Every listed name is a readable file of the directory. */
  predicate AllReadable(dir: Directory, names: seq<string>) {
    names == [] || (names[0] in dir && dir[names[0]].Readable? && AllReadable(dir, names[1..]))
  }

  /** The i-th message of `outbox` is the one built from the i-th listed file, which was readable. */
  predicate SentInOrder(dir: Directory, names: seq<string>, outbox: seq<Message>) {
    outbox == [] ||
      (&& names != []
       && names[0] in dir && dir[names[0]].Readable?
       && outbox[0] == BuildMessage(names[0], dir[names[0]].content)
       && SentInOrder(dir, names[1..], outbox[1..]))
  }

  lemma {:induction false} AllInMeans(dir: Directory, names: seq<string>)
    ensures AllIn(dir, names) <==> forall i :: 0 <= i < |names| ==> names[i] in dir
    decreases |names|
  {
    if names != [] {
      AllInMeans(dir, names[1..]);
      assert forall i :: 0 < i < |names| ==> names[i] == names[1..][i - 1];
    }
  }

  lemma {:induction false} AllReadableMeans(dir: Directory, names: seq<string>)
    ensures AllReadable(dir, names) <==> forall i :: 0 <= i < |names| ==> names[i] in dir && dir[names[i]].Readable?
    decreases |names|
  {
    if names != [] {
      AllReadableMeans(dir, names[1..]);
      assert forall i :: 0 < i < |names| ==> names[i] == names[1..][i - 1];
    }
  }

  lemma {:induction false} SentInOrderMeans(dir: Directory, names: seq<string>, outbox: seq<Message>)
    requires SentInOrder(dir, names, outbox)
    ensures |outbox| <= |names|
    ensures forall i :: 0 <= i < |outbox| ==>
      names[i] in dir && dir[names[i]].Readable? && outbox[i] == BuildMessage(names[i], dir[names[i]].content)
    decreases |outbox|
  {
    if outbox != [] {
      SentInOrderMeans(dir, names[1..], outbox[1..]);
      forall i | 0 < i < |outbox|
        ensures names[i] in dir && dir[names[i]].Readable? && outbox[i] == BuildMessage(names[i], dir[names[i]].content)
      {
        assert outbox[i] == outbox[1..][i - 1] && names[i] == names[1..][i - 1];
      }
    }
  }

  /** Handling a file that is not listed leaves the listed files as they were. */
  lemma {:induction false} AfterSendKeeps(dir: Directory, name: string, delivered: bool, names: seq<string>)
    requires name !in names
    ensures AllIn(AfterSend(dir, name, delivered), names) == AllIn(dir, names)
    ensures AllReadable(AfterSend(dir, name, delivered), names) == AllReadable(dir, names)
    decreases |names|
  {
    if names != [] {
      AfterSendKeeps(dir, name, delivered, names[1..]);
    }
  }

  /** Handling a file that is not listed leaves the messages built from the listed files as they were. */
  lemma {:induction false} AfterSendKeepsSent(dir: Directory, name: string, delivered: bool, names: seq<string>,
                                              outbox: seq<Message>)
    requires name !in names
    ensures SentInOrder(AfterSend(dir, name, delivered), names, outbox) == SentInOrder(dir, names, outbox)
    decreases |outbox|
  {
    if outbox != [] && names != [] {
      AfterSendKeepsSent(dir, name, delivered, names[1..], outbox[1..]);
    }
  }

  /** A pass over names of the directory completes exactly when every file can be read. */
  lemma {:induction false} SendEachCompletes(dir: Directory, names: seq<string>, delivers: string -> bool)
    requires Distinct(names) && AllIn(dir, names)
    ensures SendEach(dir, names, delivers).Completed? <==> AllReadable(dir, names)
    decreases |names|
  {
    if names != [] {
      var name, rest := names[0], names[1..];
      if dir[name].Readable? {
        var after := AfterSend(dir, name, delivers(name));
        AfterSendKeeps(dir, name, delivers(name), rest);
        SendEachCompletes(after, rest, delivers);
        SendEachStep(dir, names, delivers);
      }
    }
  }

  /** A completed pass over distinct names has deleted exactly the delivered files among them. */
  lemma {:induction false} SendEachRemoves(dir: Directory, names: seq<string>, delivers: string -> bool)
    requires Distinct(names) && AllIn(dir, names)
    ensures var r := SendEach(dir, names, delivers);
      r.Completed? ==> RemovedDelivered(dir, r.disk, names, delivers)
    decreases |names|
  {
    if names != [] {
      var name, rest := names[0], names[1..];
      if dir[name].Readable? {
        var after := AfterSend(dir, name, delivers(name));
        AfterSendRemoves(dir, name, delivers);
        AfterSendKeeps(dir, name, delivers(name), rest);
        SendEachRemoves(after, rest, delivers);
        SendEachStep(dir, names, delivers);
        var r' := SendEach(after, rest, delivers);
        if r'.Completed? {
          RemovedDeliveredCompose(dir, after, r'.disk, names, delivers);
        }
      }
    }
  }

  /** Where a pass stopped: an unreadable file, after the readable files before it were handled. */
  ghost predicate CrashedAt(dir: Directory, names: seq<string>, r: PassResult, delivers: string -> bool) {
    r.Crashed? ==>
      && r.at < |names|
      && names[r.at] in dir && dir[names[r.at]].Unreadable?
      && AllReadable(dir, names[..r.at])
      && RemovedDelivered(dir, r.disk, names[..r.at], delivers)
  }

  /**
   * A pass that meets an unreadable file stops there, having handled the
   * files before it as a completed pass would and left the rest untouched.
   */
  lemma {:induction false} SendEachCrashes(dir: Directory, names: seq<string>, delivers: string -> bool)
    requires Distinct(names) && AllIn(dir, names)
    ensures CrashedAt(dir, names, SendEach(dir, names, delivers), delivers)
    decreases |names|
  {
    if names != [] {
      var name := names[0];
      if dir[name].Unreadable? {
        CrashAtHead(dir, names, delivers);
      } else {
        AfterSendKeeps(dir, name, delivers(name), names[1..]);
        SendEachCrashes(AfterSend(dir, name, delivers(name)), names[1..], delivers);
        CrashAfterFirst(dir, names, delivers);
      }
    }
  }

  /** An unreadable first file stops the pass before anything is sent or deleted. */
  lemma CrashAtHead(dir: Directory, names: seq<string>, delivers: string -> bool)
    requires names != [] && names[0] in dir && dir[names[0]].Unreadable?
    ensures SendEach(dir, names, delivers) == Crashed(0, dir, [])
    ensures CrashedAt(dir, names, Crashed(0, dir, []), delivers)
  {
    assert names[..0] == [];
  }

  /** A crash at position `k` of the rest of the listing is a crash at `k + 1` of the listing. */
  lemma CrashAfterFirst(dir: Directory, names: seq<string>, delivers: string -> bool)
    requires Distinct(names) && names != [] && names[0] in dir && dir[names[0]].Readable?
    requires var after := AfterSend(dir, names[0], delivers(names[0]));
      CrashedAt(after, names[1..], SendEach(after, names[1..], delivers), delivers)
    ensures CrashedAt(dir, names, SendEach(dir, names, delivers), delivers)
  {
    SendEachStep(dir, names, delivers);
    var r' := SendEach(AfterSend(dir, names[0], delivers(names[0])), names[1..], delivers);
    if r'.Crashed? {
      CrashShiftReadable(dir, names, r'.at, delivers);
      CrashShiftRemoved(dir, r'.disk, names, r'.at, delivers);
    }
  }

  /** The file the rest of the listing stopped at, and the files before it, are as they were on disk. */
  lemma CrashShiftReadable(dir: Directory, names: seq<string>, k: nat, delivers: string -> bool)
    requires Distinct(names) && k + 1 < |names| && names[0] in dir && dir[names[0]].Readable?
    requires var after := AfterSend(dir, names[0], delivers(names[0]));
      names[1..][k] in after && after[names[1..][k]].Unreadable? && AllReadable(after, names[1..][..k])
    ensures names[k + 1] in dir && dir[names[k + 1]].Unreadable?
    ensures AllReadable(dir, names[..k + 1])
  {
    var name, rest := names[0], names[1..];
    assert names[k + 1] == rest[k];
    NotInPrefix(name, rest, k);
    AfterSendKeeps(dir, name, delivers(name), rest[..k]);
    assert names[..k + 1][1..] == rest[..k];
  }

  /** A name missing from a listing is missing from each of its prefixes. */
  lemma NotInPrefix(x: string, names: seq<string>, k: nat)
    requires x !in names && k <= |names|
    ensures x !in names[..k]
  {
  }

  /** The first file's deletion and the deletions before the crash in the rest add up. */
  lemma CrashShiftRemoved(dir: Directory, disk: Directory, names: seq<string>, k: nat, delivers: string -> bool)
    requires Distinct(names) && k + 1 < |names| && names[0] in dir && dir[names[0]].Readable?
    requires RemovedDelivered(AfterSend(dir, names[0], delivers(names[0])), disk, names[1..][..k], delivers)
    ensures RemovedDelivered(dir, disk, names[..k + 1], delivers)
  {
    var name, rest := names[0], names[1..];
    NotInPrefix(name, rest, k);
    AfterSendRemoves(dir, name, delivers);
    assert names[..k + 1][1..] == rest[..k];
    RemovedDeliveredCompose(dir, AfterSend(dir, name, delivers(name)), disk, names[..k + 1], delivers);
  }

  /** A pass sends one message per file it reads, in listing order, and no other. */
  lemma {:induction false} SendEachOutbox(dir: Directory, names: seq<string>, delivers: string -> bool)
    requires Distinct(names) && AllIn(dir, names)
    ensures var r := SendEach(dir, names, delivers);
      && |r.outbox| == (if r.Completed? then |names| else r.at)
      && SentInOrder(dir, names, r.outbox)
    decreases |names|
  {
    if names != [] {
      var name, rest := names[0], names[1..];
      if dir[name].Unreadable? {
        CrashAtHead(dir, names, delivers);
      } else {
        var after := AfterSend(dir, name, delivers(name));
        AfterSendKeeps(dir, name, delivers(name), rest);
        SendEachOutbox(after, rest, delivers);
        SendEachStep(dir, names, delivers);
        var r' := SendEach(after, rest, delivers);
        AfterSendKeepsSent(dir, name, delivers(name), rest, r'.outbox);
        assert ([BuildMessage(name, dir[name].content)] + r'.outbox)[1..] == r'.outbox;
      }
    }
  }

  /** What `glob` hands the loop: every capture-named file of the directory, once each. */
  ghost predicate IsListing(dir: Directory, listing: seq<string>) {
    && Distinct(listing)
    && forall n :: n in listing <==> n in dir && MatchesCapturePattern(n)
  }

  /**
   * One pass of the watcher: one message per capture file, no batching; each
   * file whose `try` block ran to its end is deleted, every other file, capture-named
   * or not, stays as it was. A file that cannot be read ends the process.
   */
  function Pass(dir: Directory, listing: seq<string>, delivers: string -> bool): (r: PassResult)
    requires IsListing(dir, listing)
    ensures r.Completed? <==> forall n :: n in dir && MatchesCapturePattern(n) ==> dir[n].Readable?
    ensures |r.outbox| == (if r.Completed? then |listing| else r.at)
    ensures forall i :: 0 <= i < |r.outbox| ==>
      i < |listing| && dir[listing[i]].Readable? && r.outbox[i] == BuildMessage(listing[i], dir[listing[i]].content)
    ensures r.Completed? ==>
      && (forall n :: n in r.disk <==> n in dir && !(MatchesCapturePattern(n) && delivers(n)))
      && (forall n :: n in r.disk ==> r.disk[n] == dir[n])
    ensures r.Crashed? ==>
      && r.at < |listing|
      && dir[listing[r.at]].Unreadable?
      && (forall i :: 0 <= i < r.at ==> dir[listing[i]].Readable?)
      && (forall n :: n in r.disk <==> n in dir && !(n in listing[..r.at] && delivers(n)))
      && (forall n :: n in r.disk ==> r.disk[n] == dir[n])
  {
    AllInMeans(dir, listing);
    AllReadableMeans(dir, listing);
    SendEachCompletes(dir, listing, delivers);
    SendEachRemoves(dir, listing, delivers);
    SendEachCrashes(dir, listing, delivers);
    SendEachOutbox(dir, listing, delivers);
    var r := SendEach(dir, listing, delivers);
    SentInOrderMeans(dir, listing, r.outbox);
    if r.Crashed? then
      AllReadableMeans(dir, listing[..r.at]);
      r
    else
      r
  }

  /**
   * Across two passes: a capture file whose send failed is still on disk and
   * is listed, hence attempted, again; a delivered one is never listed again.
   */
  lemma RetriedUntilDelivered(dir: Directory, listing: seq<string>, delivers: string -> bool, next: seq<string>)
    requires IsListing(dir, listing)
    requires Pass(dir, listing, delivers).Completed?
    requires IsListing(Pass(dir, listing, delivers).disk, next)
    ensures forall n :: n in listing ==> (n in next <==> !delivers(n))
  {
  }
}
