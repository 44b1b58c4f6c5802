/** Uploads as the server handles them: attachments of a message that waits for them, and users' pictures. */
module UserUpload {
  import opened Sequences
  import opened UserFiles
  import opened FileLedger

  class UploadToken {
    const atts: array<Option<Hash>>
    var current: nat

    ghost function Value(): Upload
      reads this, atts
    {
      Upload(atts[..], current)
    }

    constructor (given: Attachments)
      ensures Value() == Upload(given, 0) && fresh(atts)
    {
      atts := new Option<Hash>[|given|](i requires 0 <= i < |given| => given[i]);
      current := 0;
      new;
      assert atts[..] == given;
    }

    /** Notes the hash of an uploaded attachment; the message is stored once as many uploads have come as it has
        attachments. An index that is out of range is ignored. */
    method Attach(index: nat, hash: Hash, ghost l: Ledger, ghost t: nat, ghost insertOk: bool)
      returns (stored: Option<Attachments>)
      requires t < |l.uploads| && l.uploads[t] == Value()
      modifies this, atts
      ensures index >= atts.Length ==> stored == None && Value() == old(Value())
      ensures index < atts.Length ==>
        var l' := OnAttach(l, t, index, hash, insertOk, true);
        && l'.uploads == l.uploads[t := Value()]
        && l'.messages == l.messages + if stored.Some? then [stored.value] else []
    {
      stored := None;
      if index < atts.Length {
        atts[index] := Some(hash);
        current := current + 1;
        if current >= atts.Length {
          stored := Some(atts[..]);
        }
        assert Value() == Upload(l.uploads[t].atts[index := Some(hash)], l.uploads[t].current + 1);
      }
      assert l.messages + [] == l.messages;
    }
  }

  class ChatUser {
    var pfpHash: Hash

    /** The callback of a picture update: releases the picture in memory and keeps the new one. */
    method PictureUpdated(ok: bool, hash: Hash, ghost u: User) returns (released: Option<Hash>)
      requires |u.held| > 1 && u.held[0] == pfpHash && u.held[1] == hash
      modifies this
      ensures ok ==> released == Some(u.held[0]) && pfpHash == u.held[1..][0]
      ensures !ok ==> released == None && pfpHash == old(pfpHash)
    {
      released := None;
      if ok {
        released := Some(pfpHash);
        pfpHash := hash;
      }
    }
  }

  /** Releases the file of every attachment, in order. An attachment without a hash is a null pointer. */
  method DeleteAttachments(atts: Attachments) returns (released: seq<Hash>, crashed: bool)
    ensures crashed <==> None in atts
    ensures !crashed ==> released == FilesOf(atts)
    ensures crashed ==>
      exists i | 0 <= i < |atts| :: atts[i] == None && None !in atts[..i] && released == FilesOf(atts[..i])
  {
    released, crashed := [], false;
    for i := 0 to |atts|
      invariant None !in atts[..i] && released == FilesOf(atts[..i])
    {
      if atts[i] == None {
        return released, true;
      }
      FilesOfNext(atts, i);
      released := released + [atts[i].value];
    }
    assert atts[..|atts|] == atts;
  }

  lemma FilesOfNext(atts: Attachments, i: nat)
    requires i < |atts| && atts[i].Some?
    ensures FilesOf(atts[..i + 1]) == FilesOf(atts[..i]) + [atts[i].value]
  {
    assert atts[..i + 1] == atts[..i] + [atts[i]];
    FilesAppend(atts[..i], [atts[i]]);
    FilesOne(atts[i]);
  }

  lemma {:induction false} FilesAppend(a: Attachments, b: Attachments)
    ensures FilesOf(a + b) == FilesOf(a) + FilesOf(b)
  {
    if a == [] {
      assert a + b == b;
    } else {
      assert (a + b)[1..] == a[1..] + b && (a + b)[0] == a[0];
      FilesAppend(a[1..], b);
      var first := match a[0] case None => [] case Some(h) => [h];
      assert (first + FilesOf(a[1..])) + FilesOf(b) == first + (FilesOf(a[1..]) + FilesOf(b));
    }
  }
}
