/** The `StringBuilders` utility class, with a `StringBuilder` modelled as
    the text it holds. */
module StringBuilders {
  import opened Bytes
  import opened Wrappers

  datatype Builder = Builder(content: string)

  /** What `append(String)` adds: a null reference appends the text "null". */
  function AppendText(part: Option<string>): string {
    match part
    case None => "null"
    case Some(s) => s
  }

  function Texts(parts: seq<Option<string>>): (r: seq<string>)
    ensures |r| == |parts| && forall i :: 0 <= i < |parts| ==> r[i] == AppendText(parts[i])
  {
    seq(|parts|, i requires 0 <= i < |parts| => AppendText(parts[i]))
  }

  /** Reference definition: the texts of the parts one after the other. */
  function Joined(parts: seq<Option<string>>): string {
    Flatten(Texts(parts))
  }

  /** `drain`: the current content, and the builder left empty. */
  function Drain(b: Builder): (r: (string, Builder))
    ensures r.0 == b.content
    ensures |r.1.content| == 0
  {
    (b.content, Clear(b))
  }

  /** `clear`: `setLength(0)`. */
  function Clear(b: Builder): (r: Builder)
    ensures |r.content| == 0
  {
    b.(content := [])
  }

  /** `appendAll`: appends each part in turn. */
  method AppendAll(b: Builder, parts: seq<Option<string>>) returns (r: Builder)
    ensures r.content == b.content + Joined(parts)
    ensures |parts| == 0 ==> r == b
  {
    r := b;
    var i := 0;
    while i < |parts|
      invariant 0 <= i <= |parts|
      invariant r.content == b.content + Joined(parts[..i])
    {
      JoinedSnoc(parts, i);
      r := r.(content := r.content + AppendText(parts[i]));
      i := i + 1;
    }
    assert parts[..|parts|] == parts;
  }

  /** Joining one more part appends its text. */
  lemma JoinedSnoc(parts: seq<Option<string>>, i: nat)
    requires i < |parts|
    ensures Joined(parts[..i + 1]) == Joined(parts[..i]) + AppendText(parts[i])
  {
    assert Texts(parts[..i + 1]) == Texts(parts[..i]) + [AppendText(parts[i])];
    FlattenAppend(Texts(parts[..i]), [AppendText(parts[i])]);
    assert Flatten([AppendText(parts[i])]) == AppendText(parts[i]) + Flatten([]);
  }

  // ---------------------------------------------------------------------
  // Properties

  /** Draining twice: the second drain returns the empty text. */
  lemma DrainTwice(b: Builder)
    ensures Drain(Drain(b).1).0 == ""
    ensures Drain(Drain(b).1).1 == Drain(b).1
  {
  }

  /** Clearing is idempotent. */
  lemma ClearIdempotent(b: Builder)
    ensures Clear(Clear(b)) == Clear(b)
  {
  }

  /** Joining distributes over splitting the parts. */
  lemma {:induction false} JoinedAppend(a: seq<Option<string>>, b: seq<Option<string>>)
    ensures Joined(a + b) == Joined(a) + Joined(b)
  {
    assert Texts(a + b) == Texts(a) + Texts(b);
    FlattenAppend(Texts(a), Texts(b));
  }
}
