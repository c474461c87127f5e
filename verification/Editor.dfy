/** The buffer engine of the text editor: in-place edits, line and column geometry, cursor moves. */
module Editor {
  import opened Bytes

  const MAX_BUFFER: nat := 128 * 1024
  const SCREEN_HEIGHT: nat := 28
  const NL: Byte := 10

  // ---------------------------------------------------------------- geometry of a text

  /** The line of position `p`: newlines before it. */
  function LineOf(t: seq<Byte>, p: nat): (l: nat)
    requires p <= |t|
    ensures l <= p
    decreases p
  {
    if p == 0 then 0 else LineOf(t, p - 1) + if t[p - 1] == NL then 1 else 0
  }

  /** Its column: bytes since the last newline. */
  function ColOf(t: seq<Byte>, p: nat): (c: nat)
    requires p <= |t|
    ensures c <= p
    decreases p
  {
    if p == 0 || t[p - 1] == NL then 0 else ColOf(t, p - 1) + 1
  }

  /** The first position at or after `i` on line `k` or later; the end of the text if there is none. */
  function Seek(t: seq<Byte>, k: nat, i: nat): (s: nat)
    requires i <= |t|
    ensures i <= s <= |t| && (s < |t| ==> LineOf(t, s) >= k)
    ensures forall j: nat :: i <= j < s ==> LineOf(t, j) < k
    decreases |t| - i
  {
    if i == |t| || LineOf(t, i) >= k then i else Seek(t, k, i + 1)
  }

  function StartOf(t: seq<Byte>, k: nat): (s: nat)
    ensures s <= |t|
  {
    Seek(t, k, 0)
  }

  /** The newline ending the line that `i` is on, or the end of the text. */
  function EndOf(t: seq<Byte>, i: nat): (e: nat)
    requires i <= |t|
    ensures i <= e <= |t| && (e < |t| ==> t[e] == NL)
    ensures forall j :: i <= j < e ==> t[j] != NL
    decreases |t| - i
  {
    if i == |t| || t[i] == NL then i else EndOf(t, i + 1)
  }

  function Lines(t: seq<Byte>): nat { LineOf(t, |t|) }

  lemma {:induction false} LineMonotone(t: seq<Byte>, p: nat, q: nat)
    requires p <= q <= |t|
    ensures LineOf(t, p) <= LineOf(t, q)
    decreases q
  {
    if p < q {
      LineMonotone(t, p, q - 1);
    }
  }

  /** Going back by the column stays on the line and ends at column 0. */
  lemma {:induction false} LineHead(t: seq<Byte>, p: nat)
    requires p <= |t|
    ensures var s := p - ColOf(t, p);
            && LineOf(t, s) == LineOf(t, p) && ColOf(t, s) == 0
            && (forall j: nat :: j < s ==> LineOf(t, j) < LineOf(t, p))
            && (forall j :: s <= j < p ==> t[j] != NL)
    decreases p
  {
    if p > 0 {
      if t[p - 1] == NL {
        forall j: nat | j < p ensures LineOf(t, j) < LineOf(t, p) { LineMonotone(t, j, p - 1); }
      } else {
        LineHead(t, p - 1);
      }
    }
  }

  /** `find_line_start` and `compute_cursor_line_col` are inverse to each other. */
  lemma StartPlusCol(t: seq<Byte>, p: nat)
    requires p <= |t|
    ensures StartOf(t, LineOf(t, p)) + ColOf(t, p) == p
  {
    hide LineOf, ColOf, Seek;
    LineHead(t, p);
    SeekIs(t, LineOf(t, p), 0, p - ColOf(t, p));
  }

  lemma {:induction false} SeekIs(t: seq<Byte>, k: nat, i: nat, s: nat)
    requires i <= s <= |t| && LineOf(t, s) >= k && forall j: nat :: i <= j < s ==> LineOf(t, j) < k
    ensures Seek(t, k, i) == s
    decreases s - i
  {
    if i < s {
      SeekIs(t, k, i + 1, s);
    }
  }

  /** Along a line, line and column of every position. */
  lemma {:induction false} AlongLine(t: seq<Byte>, s: nat, c: nat)
    requires s <= |t| && ColOf(t, s) == 0 && s + c <= EndOf(t, s)
    ensures LineOf(t, s + c) == LineOf(t, s) && ColOf(t, s + c) == c
    decreases c
  {
    if c > 0 {
      AlongLine(t, s, c - 1);
      assert t[s + c - 1] != NL;
    }
  }

  /** Line `k` exists exactly when the text has that many newlines; then its start is found. */
  lemma StartOfLine(t: seq<Byte>, k: nat)
    ensures k <= Lines(t) ==> LineOf(t, StartOf(t, k)) == k && ColOf(t, StartOf(t, k)) == 0
    ensures k > Lines(t) ==> StartOf(t, k) == |t|
  {
    var s := StartOf(t, k);
    if k <= Lines(t) {
      if s > 0 {
        assert LineOf(t, s - 1) < k;
      }
    } else if s < |t| {
      LineMonotone(t, s, |t|);
    }
  }

  // ---------------------------------------------------------------- edits on values

  /** What the editor shows: text, cursor, first visible line, and whether there are unsaved changes. */
  datatype Doc = Doc(text: seq<Byte>, cursor: nat, scroll: nat, modified: bool)

  predicate DocOk(d: Doc) {
    d.cursor <= |d.text| < MAX_BUFFER
  }

  function Inserted(d: Doc, c: Byte): (e: Doc)
    requires DocOk(d)
    ensures DocOk(e)
  {
    if |d.text| + 1 >= MAX_BUFFER then d
    else d.(text := d.text[..d.cursor] + [c] + d.text[d.cursor..], cursor := d.cursor + 1, modified := true)
  }

  function Backspaced(d: Doc): (e: Doc)
    requires DocOk(d)
    ensures DocOk(e)
  {
    if d.cursor == 0 then d
    else d.(text := d.text[..d.cursor - 1] + d.text[d.cursor..], cursor := d.cursor - 1, modified := true)
  }

  function Deleted(d: Doc): (e: Doc)
    requires DocOk(d)
    ensures DocOk(e)
  {
    if d.cursor >= |d.text| then d
    else d.(text := d.text[..d.cursor] + d.text[d.cursor + 1..], modified := true)
  }

  /** Backspace undoes insert, delete undoes insert with the cursor moved back. */
  lemma BackspaceUndoesInsert(d: Doc, c: Byte)
    requires DocOk(d) && |d.text| + 1 < MAX_BUFFER
    ensures Backspaced(Inserted(d, c)) == d.(modified := true)
    ensures Deleted(Inserted(d, c).(cursor := d.cursor)) == d.(modified := true)
  {
    var e := Inserted(d, c);
    assert e.text[..d.cursor] == d.text[..d.cursor] && e.text[d.cursor + 1..] == d.text[d.cursor..];
    assert d.text[..d.cursor] + d.text[d.cursor..] == d.text;
  }

  /** Retyping what backspace took out restores the document. */
  lemma InsertUndoesBackspace(d: Doc)
    requires DocOk(d) && d.cursor > 0
    ensures Inserted(Backspaced(d), d.text[d.cursor - 1]) == d.(modified := true)
  {
    var e := Backspaced(d);
    assert e.text[..e.cursor] == d.text[..d.cursor - 1] && e.text[e.cursor..] == d.text[d.cursor..];
    assert d.text[..d.cursor - 1] + [d.text[d.cursor - 1]] + d.text[d.cursor..] == d.text;
  }

  function Min(a: nat, b: nat): nat { if a <= b then a else b }

  function MovedUp(d: Doc): (e: Doc)
    requires DocOk(d)
  {
    var line, col := LineOf(d.text, d.cursor), ColOf(d.text, d.cursor);
    if line == 0 then d.(cursor := 0)
    else
      var s := StartOf(d.text, line - 1);
      d.(cursor := s + Min(col, EndOf(d.text, s) - s))
  }

  function MovedDown(d: Doc): (e: Doc)
    requires DocOk(d)
  {
    var line, col := LineOf(d.text, d.cursor), ColOf(d.text, d.cursor);
    var s := StartOf(d.text, line + 1);
    if s >= |d.text| then d.(cursor := |d.text|)
    else d.(cursor := s + Min(col, EndOf(d.text, s) - s))
  }

  /** Length of line `k`. */
  function LineLength(t: seq<Byte>, k: nat): nat { EndOf(t, StartOf(t, k)) - StartOf(t, k) }

  lemma FirstLine(t: seq<Byte>, p: nat)
    requires p <= |t|
    ensures LineOf(t, 0) == 0
  {
  }

  /** Up: the line above at the same column or at its end; on the first line, the start of the text. */
  lemma UpLands(d: Doc)
    requires DocOk(d)
    ensures var line, col, e := LineOf(d.text, d.cursor), ColOf(d.text, d.cursor), MovedUp(d);
            && DocOk(e)
            && (if line == 0 then e.cursor == 0
                else LineOf(d.text, e.cursor) == line - 1
                     && ColOf(d.text, e.cursor) == Min(col, LineLength(d.text, line - 1)))
  {
    hide LineOf, ColOf, EndOf, Seek;
    FirstLine(d.text, d.cursor);
    var t, line := d.text, LineOf(d.text, d.cursor);
    if line > 0 {
      LineMonotone(t, d.cursor, |t|);
      StartOfLine(t, line - 1);
      AlongLine(t, StartOf(t, line - 1), Min(ColOf(t, d.cursor), LineLength(t, line - 1)));
    }
  }

  /** Down: the line below at the same column or at its end, exactly when there is a line below;
      otherwise the end of the text. */
  lemma DownLands(d: Doc)
    requires DocOk(d)
    ensures var line, col, e := LineOf(d.text, d.cursor), ColOf(d.text, d.cursor), MovedDown(d);
            && DocOk(e)
            && (LineOf(d.text, e.cursor) == line + 1 <==> line < Lines(d.text))
            && (line < Lines(d.text) ==> ColOf(d.text, e.cursor) == Min(col, LineLength(d.text, line + 1)))
            && (line == Lines(d.text) ==> e.cursor == |d.text|)
  {
    hide LineOf, ColOf, EndOf, Seek;
    var t, line := d.text, LineOf(d.text, d.cursor);
    LineMonotone(t, d.cursor, |t|);
    StartOfLine(t, line + 1);
    if line < Lines(t) {
      AlongLine(t, StartOf(t, line + 1), Min(ColOf(t, d.cursor), LineLength(t, line + 1)));
    }
  }

  /** Up and then down comes back, when the line above is at least as long as the column. */
  lemma UpThenDown(d: Doc)
    requires DocOk(d) && LineOf(d.text, d.cursor) > 0
    requires ColOf(d.text, d.cursor) <= LineLength(d.text, LineOf(d.text, d.cursor) - 1)
    ensures MovedDown(MovedUp(d)) == d
  {
    hide LineOf, ColOf, EndOf, Seek;
    var t, line, col := d.text, LineOf(d.text, d.cursor), ColOf(d.text, d.cursor);
    UpLands(d);
    var e := MovedUp(d);
    LineMonotone(t, d.cursor, |t|);
    DownLands(e);
    StartPlusCol(t, d.cursor);
    StartPlusCol(t, MovedDown(e).cursor);
    ColWithin(t, d.cursor);
  }

  /** A column never exceeds the length of its line. */
  lemma ColWithin(t: seq<Byte>, p: nat)
    requires p <= |t|
    ensures ColOf(t, p) <= LineLength(t, LineOf(t, p))
  {
    StartPlusCol(t, p);
    LineHead(t, p);
    EndNotBefore(t, StartOf(t, LineOf(t, p)), p);
  }

  lemma EndNotBefore(t: seq<Byte>, s: nat, p: nat)
    requires s <= p <= |t| && forall j :: s <= j < p ==> t[j] != NL
    ensures EndOf(t, s) >= p
  {
  }

  // ---------------------------------------------------------------- scrolling

  predicate Visible(d: Doc)
    requires DocOk(d)
  {
    d.scroll <= LineOf(d.text, d.cursor) < d.scroll + SCREEN_HEIGHT - 1
  }

  function Shown(d: Doc): (e: Doc)
    requires DocOk(d)
    ensures DocOk(e)
  {
    var line := LineOf(d.text, d.cursor);
    if line < d.scroll then d.(scroll := line)
    else if line >= d.scroll + 27 then d.(scroll := line - 26)
    else d
  }

  function Distance(a: nat, b: nat): nat { if a <= b then b - a else a - b }

  /** Scrolling makes the cursor visible, and moves as little as possible. */
  lemma ShownIsNearest(d: Doc, scroll: nat)
    requires DocOk(d)
    ensures Visible(Shown(d))
    ensures Visible(d.(scroll := scroll)) ==> Distance(Shown(d).scroll, d.scroll) <= Distance(scroll, d.scroll)
  {
  }

  // ---------------------------------------------------------------- keys

  const CTRL_Q: Byte := 0x11
  const CTRL_S: Byte := 0x13

  /** The keys the editor reacts to, quit and save aside. */
  predicate Handled(c: Byte) {
    c == 8 || c == NL || c >= 0x20
  }

  /** The effect of such a key on text and cursor. */
  function Edited(d: Doc, c: Byte): (e: Doc)
    requires DocOk(d)
    ensures DocOk(e) && e.scroll == d.scroll
  {
    if c == 0x83 then (if d.cursor > 0 then d.(cursor := d.cursor - 1) else d)
    else if c == 0x84 then (if d.cursor < |d.text| then d.(cursor := d.cursor + 1) else d)
    else if c == 0x81 then UpLands(d); MovedUp(d)
    else if c == 0x82 then DownLands(d); MovedDown(d)
    else if c == 8 || c == 127 then Backspaced(d)
    else Inserted(d, c)
  }

  function Pressed(d: Doc, c: Byte): (e: Doc)
    requires DocOk(d)
    ensures DocOk(e)
  {
    if Handled(c) then Shown(Edited(d, c)) else d
  }

  lemma ShownKeeps(d: Doc)
    requires DocOk(d)
    ensures Shown(d) == d.(scroll := Shown(d).scroll)
  {
  }

  /** The keys 0x81 to 0x84 move the cursor up, down, left and right. */
  lemma MoveKeys(d: Doc, c: Byte)
    requires DocOk(d) && 0x81 <= c <= 0x84
    ensures var e := Pressed(d, c);
            && e == d.(cursor := e.cursor, scroll := e.scroll)
            && (c == 0x81 ==> e.cursor == MovedUp(d).cursor)
            && (c == 0x82 ==> e.cursor == MovedDown(d).cursor)
            && (c == 0x83 ==> e.cursor == if d.cursor == 0 then 0 else d.cursor - 1)
            && (c == 0x84 ==> e.cursor == if d.cursor == |d.text| then |d.text| else d.cursor + 1)
  {
    hide Shown, LineOf, ColOf, StartOf;
    ShownKeeps(Edited(d, c));
  }

  /** Backspace and DEL take out the byte before the cursor. */
  lemma EraseKeys(d: Doc, c: Byte)
    requires DocOk(d) && (c == 8 || c == 127)
    ensures var e := Pressed(d, c);
            if d.cursor == 0 then e == d.(scroll := e.scroll)
            else
              && |e.text| == |d.text| - 1 && e.cursor == d.cursor - 1 && e.modified
              && forall i :: 0 <= i < |e.text| ==> e.text[i] == if i < d.cursor - 1 then d.text[i] else d.text[i + 1]
  {
    hide Shown;
    ShownKeeps(Edited(d, c));
  }

  /** Newline and every other byte from 0x20 on are typed in front of the cursor while there is room. */
  lemma TypeKeys(d: Doc, c: Byte)
    requires DocOk(d) && (c == 10 || c >= 0x20) && c != 127 && !(0x81 <= c <= 0x84)
    ensures var e := Pressed(d, c);
            if |d.text| + 1 >= 128 * 1024 then e == d.(scroll := e.scroll)
            else
              && |e.text| == |d.text| + 1 && e.cursor == d.cursor + 1 && e.modified && e.text[d.cursor] == c
              && forall i :: 0 <= i <= |d.text| && i != d.cursor ==>
                               e.text[i] == if i < d.cursor then d.text[i] else d.text[i - 1]
  {
    hide Shown;
    ShownKeeps(Edited(d, c));
  }

  /** The remaining keys do nothing. */
  lemma OtherKeys(d: Doc, c: Byte)
    requires DocOk(d) && c < 0x20 && c != 8 && c != 10
    ensures Pressed(d, c) == d
  {
  }

  lemma PressedKeeps(d: Doc, c: Byte)
    requires DocOk(d) && Visible(d)
    ensures Visible(Pressed(d, c))
  {
    hide Edited, Shown, Visible;
    ShownIsNearest(Edited(d, c), 0);
  }

  function Typed(d: Doc, keys: seq<Byte>): Doc
    requires DocOk(d) && Visible(d)
    decreases |keys|
  {
    if keys == [] then d else
      PressedKeeps(d, keys[0]);
      Typed(Pressed(d, keys[0]), keys[1..])
  }

  /** After any sequence of keys the cursor is inside the text, the text inside the buffer, and the
      cursor's line on the screen. */
  lemma {:induction false} TypedKeeps(d: Doc, keys: seq<Byte>)
    requires DocOk(d) && Visible(d)
    ensures DocOk(Typed(d, keys)) && Visible(Typed(d, keys))
    decreases |keys|
  {
    if keys != [] {
      PressedKeeps(d, keys[0]);
      TypedKeeps(Pressed(d, keys[0]), keys[1..]);
    }
  }

  // ---------------------------------------------------------------- the editor

  /** `b` with the `n` bytes from `src` on copied to `dst`. */
  function Moved(b: seq<Byte>, dst: nat, src: nat, n: nat): (r: seq<Byte>)
    requires dst + n <= |b| && src + n <= |b|
    ensures |r| == |b|
  {
    b[..dst] + b[src..src + n] + b[dst + n..]
  }

  lemma MovedAt(b: seq<Byte>, dst: nat, src: nat, n: nat, w: seq<Byte>)
    requires dst + n <= |b| && src + n <= |b| == |w|
    requires forall k {:trigger w[k]} :: 0 <= k < |w| ==> w[k] == if dst <= k < dst + n then b[k - dst + src] else b[k]
    ensures w == Moved(b, dst, src, n)
  {
    assert w[..dst] == b[..dst] && w[dst..dst + n] == b[src..src + n] && w[dst + n..] == b[dst + n..];
  }

  /** Moving what is behind position `at` up by one, and putting a byte there. */
  lemma GapFilled(b: seq<Byte>, at: nat, len: nat, c: Byte)
    requires at <= len < |b|
    ensures Moved(b, at + 1, at, len - at)[at := c][..len + 1] == b[..len][..at] + [c] + b[..len][at..]
  {
    var w := Moved(b, at + 1, at, len - at)[at := c];
    assert w[..at] == b[..len][..at];
    assert w[at + 1..len + 1] == b[at..len] == b[..len][at..];
    assert w[..len + 1] == w[..at] + [w[at]] + w[at + 1..len + 1];
  }

  /** Moving what is behind position `at` down by one. */
  lemma GapClosed(b: seq<Byte>, at: nat, len: nat)
    requires at < len <= |b|
    ensures Moved(b, at, at + 1, len - at - 1)[..len - 1] == b[..len][..at] + b[..len][at + 1..]
  {
    var w := Moved(b, at, at + 1, len - at - 1);
    assert w[..at] == b[..len][..at];
    assert w[at..len - 1] == b[at + 1..len] == b[..len][at + 1..];
    assert w[..len - 1] == w[..at] + w[at..len - 1];
  }

  class TextEditor {
    const buffer: array<Byte>
    var len: nat
    var cursor: nat
    var scroll: int
    var modified: bool

    ghost predicate Valid()
      reads this
      ensures Valid() ==> buffer.Length == MAX_BUFFER
    {
      buffer.Length == MAX_BUFFER && cursor <= len < MAX_BUFFER && scroll >= 0
    }

    ghost function D(): (d: Doc)
      requires Valid()
      reads this, buffer
      ensures DocOk(d) && |d.text| == len
    {
      Doc(buffer[..len], cursor, scroll, modified)
    }

    /** `load_file_into_buffer` on a fresh editor: `n` bytes were read, none or fewer than 0 on an error. */
    constructor Load(b: array<Byte>, n: int)
      requires b.Length == MAX_BUFFER && n <= MAX_BUFFER
      ensures Valid() && buffer == b && D().cursor == 0 && D().scroll == 0 && !modified
      ensures D().text == b[..if n <= 0 then 0 else Min(n, MAX_BUFFER - 1)]
      ensures Visible(D())
    {
      buffer := b;
      scroll := 0;
      var l := 0;
      if n > 0 {
        l := n;
        if l >= MAX_BUFFER { l := MAX_BUFFER - 1; }
      }
      len, cursor, modified := l, 0, false;
    }

    /** `memmove_internal(buffer + dst, buffer + src, n)`: from the front or from the back, so that
        overlapping stretches come out right. */
    method MemMove(dst: nat, src: nat, n: nat)
      requires dst + n <= buffer.Length && src + n <= buffer.Length
      modifies buffer
      ensures buffer[..] == Moved(old(buffer[..]), dst, src, n)
    {
      hide Moved;
      ghost var was := buffer[..];
      if dst < src {
        for i := 0 to n
          invariant forall k {:trigger buffer[k]} :: 0 <= k < buffer.Length ==>
                                  buffer[k] == if dst <= k < dst + i then was[k - dst + src] else was[k]
        {
          buffer[dst + i] := buffer[src + i];
        }
      } else if dst > src {
        for i := n downto 0
          invariant forall k {:trigger buffer[k]} :: 0 <= k < buffer.Length ==>
                                  buffer[k] == if dst + i <= k < dst + n then was[k - dst + src] else was[k]
        {
          buffer[dst + i] := buffer[src + i];
        }
      }
      MovedAt(was, dst, src, n, buffer[..]);
    }

    method InsertAtCursor(c: Byte)
      requires Valid()
      modifies this, buffer
      ensures Valid() && D() == Inserted(old(D()), c)
    {
      if len + 1 >= MAX_BUFFER { return; }
      hide Moved;
      GapFilled(buffer[..], cursor, len, c);
      MemMove(cursor + 1, cursor, len - cursor);
      buffer[cursor] := c;
      cursor := cursor + 1;
      len := len + 1;
      modified := true;
    }

    method BackspaceAtCursor()
      requires Valid()
      modifies this, buffer
      ensures Valid() && D() == Backspaced(old(D()))
    {
      if cursor == 0 { return; }
      hide Moved;
      GapClosed(buffer[..], cursor - 1, len);
      MemMove(cursor - 1, cursor, len - cursor);
      cursor := cursor - 1;
      len := len - 1;
      modified := true;
    }

    method DeleteAtCursor()
      requires Valid()
      modifies this, buffer
      ensures Valid() && D() == Deleted(old(D()))
    {
      if cursor >= len { return; }
      hide Moved;
      GapClosed(buffer[..], cursor, len);
      MemMove(cursor, cursor + 1, len - cursor - 1);
      len := len - 1;
      modified := true;
    }

    /** `compute_cursor_line_col` */
    method ComputeLineCol(pos: nat) returns (line: nat, col: nat)
      requires Valid()
      ensures line == LineOf(D().text, Min(pos, len)) && col == ColOf(D().text, Min(pos, len))
    {
      line, col := 0, 0;
      var i := 0;
      while i < pos && i < len
        invariant i <= Min(pos, len) && line == LineOf(D().text, i) && col == ColOf(D().text, i)
      {
        if buffer[i] == NL {
          line := line + 1;
          col := 0;
        } else {
          col := col + 1;
        }
        i := i + 1;
      }
    }

    /** `find_line_start` */
    method FindLineStart(target: int) returns (s: nat)
      requires Valid()
      ensures s == StartOf(D().text, if target <= 0 then 0 else target)
    {
      if target <= 0 { return 0; }
      var line, i := 0, 0;
      while i < len
        invariant i <= len && line == LineOf(D().text, i) < target
        invariant Seek(D().text, target, i) == StartOf(D().text, target)
      {
        if buffer[i] == NL {
          line := line + 1;
          if line == target {
            assert LineOf(D().text, i + 1) == target;
            return i + 1;
          }
        }
        i := i + 1;
      }
      s := len;
    }

    /** `find_line_end_from_start` */
    method FindLineEnd(start: nat) returns (e: nat)
      requires Valid() && start <= len
      ensures e == EndOf(D().text, start)
    {
      e := start;
      while e < len && buffer[e] != NL
        invariant start <= e <= len && EndOf(D().text, e) == EndOf(D().text, start)
      {
        e := e + 1;
      }
    }

    method MoveCursorUp()
      requires Valid()
      modifies `cursor
      ensures Valid() && D() == MovedUp(old(D()))
    {
      hide LineOf, ColOf, EndOf, Seek;
      var line, col := ComputeLineCol(cursor);
      if line == 0 {
        cursor := 0;
        return;
      }
      var prevStart := FindLineStart(line - 1);
      cursor := TargetOn(prevStart, col);
    }

    /** The column `col`, or the end, of the line starting at `start`. */
    method TargetOn(start: nat, col: nat) returns (pos: nat)
      requires Valid() && start <= len
      ensures pos == start + Min(col, EndOf(D().text, start) - start) && pos <= len
    {
      var end := FindLineEnd(start);
      var l := end - start;
      pos := start + if col <= l then col else l;
    }

    method MoveCursorDown()
      requires Valid()
      modifies `cursor
      ensures Valid() && D() == MovedDown(old(D()))
    {
      hide LineOf, ColOf, EndOf, Seek;
      var line, col := ComputeLineCol(cursor);
      var nextStart := FindLineStart(line + 1);
      if nextStart >= len {
        cursor := len;
        return;
      }
      cursor := TargetOn(nextStart, col);
    }

    method EnsureCursorVisible()
      requires Valid()
      modifies `scroll
      ensures Valid() && D() == Shown(old(D())) && Visible(D())
    {
      var line, col := ComputeLineCol(cursor);
      var maxLines := SCREEN_HEIGHT - 1;
      if line < scroll {
        scroll := line;
      } else if line >= scroll + maxLines {
        scroll := line - (maxLines - 1);
      }
      scroll := if scroll < 0 then 0 else scroll;
    }

    /** One turn of `editor_loop` for a key other than quit and save. */
    method Press(c: Byte)
      requires Valid() && c != CTRL_Q && c != CTRL_S
      modifies this, buffer
      ensures Valid() && D() == Pressed(old(D()), c)
    {
      hide Inserted, Backspaced, MovedUp, MovedDown, Shown, Visible;
      if c == 0x83 {
        if cursor > 0 { cursor := cursor - 1; }
      } else if c == 0x84 {
        if cursor < len { cursor := cursor + 1; }
      } else if c == 0x81 {
        MoveCursorUp();
      } else if c == 0x82 {
        MoveCursorDown();
      } else if c == 8 || c == 127 {
        BackspaceAtCursor();
      } else if c == NL {
        InsertAtCursor(NL);
      } else if c >= 0x20 {
        InsertAtCursor(c);
      } else {
        return;
      }
      EnsureCursorVisible();
    }
  }
}
