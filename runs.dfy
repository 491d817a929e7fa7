/**
 * Runs of codewords written one after another, and the two ways the restore
 * loops read them back: a fixed number of pieces, each with its own reader (the
 * sub-commands of one word), or records with one reader until the cursor
 * reaches the end of the stream (the words of a section). A reader is a
 * function of the cursor, so the facts proved here hold for every decoder that
 * gives back what its encoder wrote.
 */
module Runs {
  import opened Wrappers
  import opened Bits

  /** A decoded command and the cursor just past its codeword. */
  datatype Decoded = Decoded(cmd: Bits, next: nat)

  /** A read that succeeded, gave back c and left the cursor at next. */
  ghost predicate ReadBack(d: Option<Decoded>, c: Bits, next: nat)
  {
    d.Some? && d.value.cmd == c && d.value.next == next
  }

  // ---------------------------------------------------------------------------
  // Writing

  /** Codewords written one after another, in order. */
  function Joined(ws: seq<Bits>): Bits
  {
    if ws == [] then [] else Joined(ws[..|ws| - 1]) + ws[|ws| - 1]
  }

  /** Writing one more codeword appends it. */
  lemma {:induction false} JoinedSnoc(ws: seq<Bits>, w: Bits)
    ensures Joined(ws + [w]) == Joined(ws) + w
  {
    var all := ws + [w];
    assert all[..|all| - 1] == ws;
  }

  /** A run of one to four codewords, written out. */
  lemma {:induction false} JoinedSmall(a: Bits, b: Bits, c: Bits, d: Bits)
    ensures Joined([a]) == a
    ensures Joined([a, b]) == a + b
    ensures Joined([a, b, c]) == a + b + c
    ensures Joined([a, b, c, d]) == a + b + c + d
  {
    JoinedSnoc([], a);
    assert [] + [a] == [a];
    JoinedSnoc([a], b);
    assert [a] + [b] == [a, b];
    JoinedSnoc([a, b], c);
    assert [a, b] + [c] == [a, b, c];
    JoinedSnoc([a, b, c], d);
    assert [a, b, c] + [d] == [a, b, c, d];
  }

  /** f applied to each of xs, in order. */
  function Map(f: Bits -> Bits, xs: seq<Bits>): seq<Bits>
  {
    seq(|xs|, j requires 0 <= j < |xs| => f(xs[j]))
  }

  /** Writing the images of the first i + 1: those of the first i, then the image
      of the i-th. */
  lemma {:induction false} JoinedMapSnoc(f: Bits -> Bits, xs: seq<Bits>, i: nat)
    requires i < |xs|
    ensures Joined(Map(f, xs[..i + 1])) == Joined(Map(f, xs[..i])) + f(xs[i])
  {
    assert Map(f, xs[..i + 1]) == Map(f, xs[..i]) + [f(xs[i])];
    JoinedSnoc(Map(f, xs[..i]), f(xs[i]));
  }

  /** The codewords of the first i + 1: those of the first i, then the i-th. */
  lemma {:induction false} JoinedPrefixSnoc(ws: seq<Bits>, i: nat)
    requires i < |ws|
    ensures Joined(ws[..i + 1]) == Joined(ws[..i]) + ws[i]
  {
    assert ws[..i + 1] == ws[..i] + [ws[i]];
    JoinedSnoc(ws[..i], ws[i]);
  }

  /** The run of the first i codewords is where the whole run starts. */
  lemma {:induction false} JoinedPrefix(ws: seq<Bits>, i: nat)
    requires i <= |ws|
    ensures At(Joined(ws), 0, Joined(ws[..i]))
    decreases |ws| - i
  {
    if i == |ws| {
      assert ws[..i] == ws;
      AtWhole(Joined(ws));
    } else {
      JoinedPrefix(ws, i + 1);
      JoinedPrefixSnoc(ws, i);
      AtAppend(Joined(ws), 0, Joined(ws[..i]), ws[i]);
    }
  }

  /** The i-th codeword sits in a run where the ones before it end. */
  lemma {:induction false} JoinedAt(ws: seq<Bits>, i: nat)
    requires i < |ws|
    ensures At(Joined(ws), |Joined(ws[..i])|, ws[i])
    ensures |Joined(ws[..i + 1])| == |Joined(ws[..i])| + |ws[i]|
  {
    JoinedPrefix(ws, i + 1);
    JoinedPrefixSnoc(ws, i);
    AtAppend(Joined(ws), 0, Joined(ws[..i]), ws[i]);
  }

  // ---------------------------------------------------------------------------
  // Reading a fixed number of pieces

  /** Reading pieces i, i + 1, ..., k - 1 in a row from pos, piece j with
      read(j, _): the pieces and the cursor after them, or None as soon as one
      read fails. */
  function ReadPieces(read: (nat, nat) -> Option<Decoded>, k: nat, pos: nat, i: nat): (r: Option<(seq<Bits>, nat)>)
    requires i <= k
    ensures r.Some? ==> |r.value.0| == k - i
    decreases k - i
  {
    if i == k then Some(([], pos))
    else
      match read(i, pos)
      case None => None
      case Some(d) =>
        match ReadPieces(read, k, d.next, i + 1)
        case None => None
        case Some((ps, n)) => Some(([d.cmd] + ps, n))
  }

  /** Every piece reader moves the cursor forward and stays inside end. */
  ghost predicate PiecesWithin(read: (nat, nat) -> Option<Decoded>, end: nat)
  {
    forall j: nat, p: nat :: read(j, p).Some? ==> p < read(j, p).value.next <= end
  }

  /** With readers that move forward inside end, reading at least one piece
      moves the cursor forward and stays inside end. */
  lemma {:induction false} ReadPiecesWithin(read: (nat, nat) -> Option<Decoded>, k: nat, end: nat, pos: nat, i: nat)
    requires PiecesWithin(read, end) && i <= k
    ensures ReadPieces(read, k, pos, i).Some? && i == k ==> ReadPieces(read, k, pos, i).value.1 == pos
    ensures ReadPieces(read, k, pos, i).Some? && i < k ==> pos < ReadPieces(read, k, pos, i).value.1 <= end
    decreases k - i
  {
    if i < k && read(i, pos).Some? {
      ReadPiecesWithin(read, k, end, read(i, pos).value.next, i + 1);
    }
  }

  /** The last piece alone: read, it is the whole of what is left. */
  lemma {:induction false} ReadLastPiece(read: (nat, nat) -> Option<Decoded>, k: nat, pos: nat)
    requires 1 <= k
    ensures ReadPieces(read, k, pos, k - 1)
         == match read(k - 1, pos)
            case None => None
            case Some(d) => Some(([d.cmd], d.next))
  {
    match read(k - 1, pos)
    case None =>
    case Some(d) =>
      assert ReadPieces(read, k, d.next, k) == Some(([], d.next));
      assert [d.cmd] + [] == [d.cmd];
  }

  /** Each piece reader gives back the piece whose codeword starts at the cursor. */
  ghost predicate ReadsPieces(read: (nat, nat) -> Option<Decoded>, s: Bits, ws: seq<Bits>, cs: seq<Bits>)
  {
    |ws| == |cs|
    && forall j: nat, p: nat :: j < |ws| && At(s, p, ws[j]) ==> ReadBack(read(j, p), cs[j], p + |ws[j]|)
  }

  /** The codewords of a prefix of a run inside a stream sit inside the stream too. */
  lemma {:induction false} AtNested(s: Bits, n: nat, a: Bits, m: nat, b: Bits)
    requires At(s, n, a) && At(a, m, b)
    ensures At(s, n + m, b)
  {
    forall j | 0 <= j < |b| ensures s[n + m + j] == b[j] {
      assert a[m + j] == b[j];
      assert s[n + (m + j)] == a[m + j];
    }
  }

  /** A piece read at pos goes in front of the pieces read after it. */
  lemma {:induction false} ReadPiecesCons(read: (nat, nat) -> Option<Decoded>, k: nat, pos: nat, i: nat, c: Bits, q: nat)
    requires i < k && ReadBack(read(i, pos), c, q) && ReadPieces(read, k, q, i + 1).Some?
    ensures ReadPieces(read, k, pos, i).Some?
    ensures ReadPieces(read, k, pos, i).value.0 == [c] + ReadPieces(read, k, q, i + 1).value.0
    ensures ReadPieces(read, k, pos, i).value.1 == ReadPieces(read, k, q, i + 1).value.1
  {
  }

  /** The i-th piece is read back where the codewords before it end. */
  lemma {:induction false} PieceAtCursor(read: (nat, nat) -> Option<Decoded>, s: Bits, ws: seq<Bits>, cs: seq<Bits>, n: nat, i: nat)
    requires ReadsPieces(read, s, ws, cs) && At(s, n, Joined(ws)) && i < |ws|
    ensures ReadBack(read(i, n + |Joined(ws[..i])|), cs[i], n + |Joined(ws[..i + 1])|)
  {
    JoinedAt(ws, i);
    AtNested(s, n, Joined(ws), |Joined(ws[..i])|, ws[i]);
  }

  /** Pieces read from where the first i codewords of a run end give back the
      other pieces, and leave the cursor where the run ends. */
  lemma {:induction false} ReadPiecesFrom(read: (nat, nat) -> Option<Decoded>, s: Bits, ws: seq<Bits>, cs: seq<Bits>, n: nat, i: nat)
    requires ReadsPieces(read, s, ws, cs) && At(s, n, Joined(ws)) && i <= |ws|
    ensures ReadPieces(read, |ws|, n + |Joined(ws[..i])|, i).Some?
    ensures ReadPieces(read, |ws|, n + |Joined(ws[..i])|, i).value.0 == cs[i..]
    ensures ReadPieces(read, |ws|, n + |Joined(ws[..i])|, i).value.1 == n + |Joined(ws)|
    decreases |ws| - i
  {
    if i == |ws| {
      assert ws[..i] == ws;
      assert cs[i..] == [];
    } else {
      ReadPiecesFrom(read, s, ws, cs, n, i + 1);
      PieceAtCursor(read, s, ws, cs, n, i);
      ReadPiecesCons(read, |ws|, n + |Joined(ws[..i])|, i, cs[i], n + |Joined(ws[..i + 1])|);
      assert cs[i..] == [cs[i]] + cs[i + 1..];
    }
  }

  /** The pieces of a run read back in order, and the cursor ends just past it. */
  lemma {:induction false} ReadPiecesRoundTrip(read: (nat, nat) -> Option<Decoded>, s: Bits, ws: seq<Bits>, cs: seq<Bits>, n: nat)
    requires ReadsPieces(read, s, ws, cs) && At(s, n, Joined(ws))
    ensures ReadPieces(read, |ws|, n, 0) == Some((cs, n + |Joined(ws)|))
  {
    ReadPiecesFrom(read, s, ws, cs, n, 0);
    assert ws[..0] == [];
    assert cs[0..] == cs;
  }

  // ---------------------------------------------------------------------------
  // Reading records until the end of the stream

  /** The reader moves the cursor forward and stays inside end. */
  ghost predicate Advances(read: nat -> Option<Decoded>, end: nat)
  {
    forall p: nat :: read(p).Some? ==> p < read(p).value.next <= end
  }

  /** Records read from pos until the cursor reaches end; a record that cannot
      be read fails the whole. */
  function ReadAll(read: nat -> Option<Decoded>, end: nat, pos: nat): Option<seq<Bits>>
    requires Advances(read, end)
    decreases end - pos
  {
    if pos >= end then Some([])
    else
      match read(pos)
      case None => None
      case Some(d) =>
        match ReadAll(read, end, d.next)
        case None => None
        case Some(rest) => Some([d.cmd] + rest)
  }

  /** The reader gives back the record whose codeword starts at the cursor. */
  ghost predicate ReadsRecords(read: nat -> Option<Decoded>, s: Bits, ws: seq<Bits>, cs: seq<Bits>)
  {
    |ws| == |cs|
    && forall j: nat, p: nat :: j < |ws| && At(s, p, ws[j]) ==> ReadBack(read(p), cs[j], p + |ws[j]|)
  }

  /** The i-th record is read back where the codewords before it end. */
  lemma {:induction false} RecordAtCursor(read: nat -> Option<Decoded>, ws: seq<Bits>, cs: seq<Bits>, i: nat)
    requires ReadsRecords(read, Joined(ws), ws, cs) && i < |ws|
    ensures ReadBack(read(|Joined(ws[..i])|), cs[i], |Joined(ws[..i + 1])|)
  {
    JoinedAt(ws, i);
  }

  /** Records read from where the first i codewords end give back the others. */
  lemma {:induction false} ReadAllFrom(read: nat -> Option<Decoded>, ws: seq<Bits>, cs: seq<Bits>, i: nat)
    requires Advances(read, |Joined(ws)|) && ReadsRecords(read, Joined(ws), ws, cs) && i <= |ws|
    ensures ReadAll(read, |Joined(ws)|, |Joined(ws[..i])|) == Some(cs[i..])
    decreases |ws| - i
  {
    if i == |ws| {
      assert ws[..i] == ws;
      assert cs[i..] == [];
    } else {
      ReadAllFrom(read, ws, cs, i + 1);
      RecordAtCursor(read, ws, cs, i);
      assert cs[i..] == [cs[i]] + cs[i + 1..];
    }
  }

  /** A whole stream of records reads back to the records. */
  lemma {:induction false} ReadAllRoundTrip(read: nat -> Option<Decoded>, ws: seq<Bits>, cs: seq<Bits>)
    requires Advances(read, |Joined(ws)|) && ReadsRecords(read, Joined(ws), ws, cs)
    ensures ReadAll(read, |Joined(ws)|, 0) == Some(cs)
  {
    ReadAllFrom(read, ws, cs, 0);
    assert ws[..0] == [];
    assert cs[0..] == cs;
  }

  /** xs in front of the records of a reading; a failed reading stays failed. */
  function Prepend(xs: seq<Bits>, o: Option<seq<Bits>>): (r: Option<seq<Bits>>)
    ensures r.Some? <==> o.Some?
  {
    match o
    case None => None
    case Some(ys) => Some(xs + ys)
  }

  lemma {:induction false} PrependNothing(o: Option<seq<Bits>>)
    ensures Prepend([], o) == o
  {
    if o.Some? {
      assert [] + o.value == o.value;
    }
  }

  lemma {:induction false} PrependTwice(xs: seq<Bits>, ys: seq<Bits>, o: Option<seq<Bits>>)
    ensures Prepend(xs, Prepend(ys, o)) == Prepend(xs + ys, o)
  {
    if o.Some? {
      assert xs + (ys + o.value) == xs + ys + o.value;
    }
  }

  /** The loop's step: a record read at a cursor inside the stream goes in front
      of those read after it, and a record that cannot be read fails the whole. */
  lemma {:induction false} ReadAllStep(read: nat -> Option<Decoded>, end: nat, pos: nat)
    requires Advances(read, end) && pos < end
    ensures read(pos).None? ==> ReadAll(read, end, pos).None?
    ensures read(pos).Some? ==>
      ReadAll(read, end, pos) == Prepend([read(pos).value.cmd], ReadAll(read, end, read(pos).value.next))
  {
  }

  /** At the end of the stream nothing is left to read. */
  lemma {:induction false} ReadAllEnd(read: nat -> Option<Decoded>, end: nat, pos: nat, xs: seq<Bits>)
    requires Advances(read, end) && pos >= end
    ensures Prepend(xs, ReadAll(read, end, pos)) == Some(xs)
  {
    assert xs + [] == xs;
  }
}
