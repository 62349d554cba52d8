/**
 The raw-text side of `duplicate_to_sender`: finding the body after the first
 blank line (`search(/\r?\n\r?\n/)`, `substring`, then `replace(/^\r?\n\r?\n/, '')`)
 and assembling the duplicate's text from header lines and that body.
 */
module MessageText {
  import opened Optional
  import opened Strings

  /**
   The length of the match of `/\r?\n\r?\n/` that starts at `i`, if one does.
   Each `\r?` is greedy, and backing off from a `\r` can never let the
   following `\n` match a carriage return, so the match is unique.
   */
  function SeparatorAt(t: string, i: nat): (r: Option<nat>)
    requires i <= |t|
    ensures r.Some? ==> 2 <= r.value <= 4 && i + r.value <= |t|
    ensures r.Some? ==> t[i] == CR || t[i] == LF
  {
    var j := if i < |t| && t[i] == CR then i + 1 else i;
    if j < |t| && t[j] == LF then
      var k := if j + 1 < |t| && t[j + 1] == CR then j + 2 else j + 1;
      if k < |t| && t[k] == LF then Some(k + 1 - i) else None
    else None
  }

  /** The leftmost separator at or after `from`, as (position, length). */
  function FindSeparator(t: string, from: nat): (r: Option<(nat, nat)>)
    requires from <= |t|
    ensures r.Some? ==> from <= r.value.0 <= |t| && SeparatorAt(t, r.value.0) == Some(r.value.1)
    ensures r.Some? ==> forall k :: from <= k < r.value.0 ==> SeparatorAt(t, k).None?
    ensures r.None? ==> forall k :: from <= k <= |t| ==> SeparatorAt(t, k).None?
    decreases |t| - from
  {
    match SeparatorAt(t, from)
    case Some(n) => Some((from, n))
    case None => if from == |t| then None else FindSeparator(t, from + 1)
  }

  /** `full_text.search(/\r?\n\r?\n/)`: index of the leftmost match, or -1. */
  function SearchSeparator(t: string): (r: int)
    ensures -1 <= r <= |t|
  {
    match FindSeparator(t, 0)
    case Some((i, _)) => i
    case None => -1
  }

  /** `t.substring(start)`: a negative start counts as 0. */
  function Substring(t: string, start: int): string
    requires start <= |t|
  {
    if start < 0 then t else t[start..]
  }

  /** `s.replace(/^\r?\n\r?\n/, '')`: drop a separator standing at the very start. */
  function StripLeadingSeparator(s: string): string
  {
    match SeparatorAt(s, 0)
    case Some(n) => s[n..]
    case None => s
  }

  /**
   The body text exactly as the plugin computes it from the full message text.
   When the text has no blank line, `search` yields -1 and the whole text,
   header lines included, is taken as the body.
   */
  function BodyText(t: string): (b: string)
    ensures |b| <= |t| && b == t[|t| - |b|..]
    ensures FindSeparator(t, 0).None? ==> b == t
  {
    StripLeadingSeparator(Substring(t, SearchSeparator(t)))
  }

  /**
   The body as evidently intended: what follows the first blank line, and
   nothing when the text has no blank line (a message of header lines only).
   */
  function MessageBody(t: string): (b: string)
    ensures FindSeparator(t, 0).None? ==> b == ""
    ensures FindSeparator(t, 0).Some? ==> b == BodyText(t)
    ensures |b| <= |t| && b == t[|t| - |b|..]
  {
    BodyTextSplits(t);
    match FindSeparator(t, 0)
    case Some((i, n)) => t[i + n..]
    case None => ""
  }

  /** A text of one line holds no blank line. */
  lemma SingleLineHasNoSeparator(t: string)
    requires SingleLine(t)
    ensures FindSeparator(t, 0).None?
  {
  }

  /**
   The source's body extraction copies a header-only text into the body:
   for `Subject: hi`, which has no blank line, the computed body is the whole
   header line, where the intended body is empty.
   */
  lemma HeaderOnlyTextBecomesBody(t: string)
    requires |t| > 0 && SingleLine(t)
    ensures BodyText(t) == t && BodyText(t) != ""
    ensures MessageBody(t) == ""
  {
    SingleLineHasNoSeparator(t);
    BodyTextSplits(t);
  }

  lemma HeaderOnlyExample()
    ensures BodyText("Subject: hi") == "Subject: hi"
    ensures MessageBody("Subject: hi") == ""
  {
    HeaderOnlyTextBecomesBody("Subject: hi");
  }

  /** A separator's match depends only on the text from its start onwards. */
  lemma SeparatorAtShift(a: string, b: string, k: nat)
    requires k <= |b|
    ensures SeparatorAt(a + b, |a| + k) == SeparatorAt(b, k)
  {
    var t := a + b;
    forall j | k <= j < |b|
      ensures t[|a| + j] == b[j]
    {
    }
  }

  /**
   The body is what follows the first blank line; a text without a blank
   line is all body.
   */
  lemma BodyTextSplits(t: string)
    ensures match FindSeparator(t, 0)
      case Some((i, n)) => BodyText(t) == t[i + n..]
      case None => BodyText(t) == t
  {
    match FindSeparator(t, 0)
    case Some((i, n)) =>
      SeparatorAtShift(t[..i], t[i..], 0);
      assert t[..i] + t[i..] == t;
      assert t[i..][n..] == t[i + n..];
    case None =>
  }

  /** Header lines joined by CRLF, a blank line, then the body. */
  function ComposeText(lines: seq<string>, body: string): string
  {
    Join(lines, CRLF) + CRLF + CRLF + body
  }

  /** Non-empty lines with no line-break characters in them. */
  predicate WellFormedLines(lines: seq<string>)
  {
    forall i :: 0 <= i < |lines| ==> |lines[i]| > 0 && SingleLine(lines[i])
  }

  /** Within a block of well-formed lines joined by CRLF no separator starts. */
  lemma {:induction false} NoSeparatorInBlock(lines: seq<string>, tail: string)
    requires WellFormedLines(lines)
    ensures forall k :: 0 <= k < |Join(lines, CRLF)| ==> SeparatorAt(Join(lines, CRLF) + tail, k).None?
    decreases |lines|
  {
    var block := Join(lines, CRLF);
    var t := block + tail;
    if |lines| == 1 {
      forall k | 0 <= k < |block|
        ensures SeparatorAt(t, k).None?
      {
        assert t[k] == lines[0][k];
      }
    } else if |lines| > 1 {
      var l0 := lines[0];
      var inner := Join(lines[1..], CRLF);
      assert WellFormedLines(lines[1..]) by {
        forall i | 0 <= i < |lines[1..]|
          ensures |lines[1..][i]| > 0 && SingleLine(lines[1..][i])
        {
          assert lines[1..][i] == lines[i + 1];
        }
      }
      NoSeparatorInBlock(lines[1..], tail);
      assert block == l0 + CRLF + inner;
      assert t == (l0 + CRLF) + (inner + tail);
      assert |inner| >= |lines[1]| > 0 && inner[0] == lines[1][0];
      var next := lines[1][0];
      assert next != CR && next != LF;
      forall k | 0 <= k < |block|
        ensures SeparatorAt(t, k).None?
      {
        if k < |l0| {
          assert t[k] == l0[k];
        } else if k == |l0| {
          assert t[k] == CR && t[k + 1] == LF && t[k + 2] == next;
        } else if k == |l0| + 1 {
          assert t[k] == LF && t[k + 1] == next;
        } else {
          SeparatorAtShift(l0 + CRLF, inner + tail, k - |l0| - 2);
        }
      }
    }
  }

  /**
   Composing a text from well-formed header lines and a body, then reading its
   body back the way the plugin does, returns that body unchanged.
   */
  lemma ComposeThenBody(lines: seq<string>, body: string)
    requires WellFormedLines(lines)
    ensures FindSeparator(ComposeText(lines, body), 0) == Some((|Join(lines, CRLF)|, 4))
    ensures BodyText(ComposeText(lines, body)) == body
    ensures MessageBody(ComposeText(lines, body)) == body
  {
    var block := Join(lines, CRLF);
    var t := ComposeText(lines, body);
    assert t == block + (CRLF + CRLF + body);
    NoSeparatorInBlock(lines, CRLF + CRLF + body);
    SeparatorAtShift(block, CRLF + CRLF + body, 0);
    assert SeparatorAt(t, |block|) == Some(4);
    BodyTextSplits(t);
    assert t[|block| + 4..] == body;
  }
}
