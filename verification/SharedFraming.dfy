/** One receive buffer serves every connection of the server: what each connection is sent back, and
    when that is exactly what its own bytes ask for. */
module SharedFraming {
  import opened Bytes
  import opened Codec
  import opened Framing

  /** A piece of input and the connection it came from; a body and the connection it is sent to. */
  datatype Piece = Piece(conn: nat, data: seq<byte>)
  datatype Sent = Sent(conn: nat, body: seq<byte>)

  datatype Served = Served(sent: seq<Sent>, rest: seq<byte>, broken: bool)

  function Tagged(conn: nat, bodies: seq<seq<byte>>): (r: seq<Sent>)
    ensures |r| == |bodies|
  {
    seq(|bodies|, i requires 0 <= i < |bodies| => Sent(conn, bodies[i]))
  }

  /** Whatever a piece completes goes to the connection that brought the piece. */
  function Serve(pieces: seq<Piece>): Served {
    if pieces == [] then Served([], [], false)
    else
      var before, piece := Serve(pieces[..|pieces| - 1]), pieces[|pieces| - 1];
      if before.broken then before.(rest := before.rest + piece.data)
      else
        var p := Parse(before.rest + piece.data);
        Served(before.sent + Tagged(piece.conn, p.bodies), p.rest, p.broken)
  }

  function SentTo(sent: seq<Sent>, conn: nat): seq<seq<byte>> {
    if sent == [] then []
    else SentTo(sent[..|sent| - 1], conn) + if sent[|sent| - 1].conn == conn then [sent[|sent| - 1].body] else []
  }

  function PiecesOf(pieces: seq<Piece>, conn: nat): seq<seq<byte>> {
    if pieces == [] then []
    else
      PiecesOf(pieces[..|pieces| - 1], conn)
      + if pieces[|pieces| - 1].conn == conn then [pieces[|pieces| - 1].data] else []
  }

  /** What the connection's bytes alone would be decoded to. */
  function Own(pieces: seq<Piece>, conn: nat): Parsed {
    FeedAll(PiecesOf(pieces, conn))
  }

  /** Whenever another connection takes over, the one before it has just ended a frame. */
  predicate CleanHandovers(pieces: seq<Piece>) {
    forall i :: 0 < i < |pieces| && pieces[i].conn != pieces[i - 1].conn ==>
      var own := Own(pieces[..i], pieces[i - 1].conn);
      own.rest == [] && !own.broken
  }

  lemma {:induction false} SentToConcat(a: seq<Sent>, b: seq<Sent>, conn: nat)
    ensures SentTo(a + b, conn) == SentTo(a, conn) + SentTo(b, conn)
    decreases |b|
  {
    if b == [] {
      assert a + b == a;
    } else {
      var n := |b| - 1;
      assert (a + b)[..|a| + n] == a + b[..n];
      SentToConcat(a, b[..n], conn);
    }
  }

  lemma {:induction false} SentToTagged(conn: nat, bodies: seq<seq<byte>>, c: nat)
    ensures SentTo(Tagged(conn, bodies), c) == if c == conn then bodies else []
    decreases |bodies|
  {
    if bodies != [] {
      var n := |bodies| - 1;
      assert Tagged(conn, bodies)[..n] == Tagged(conn, bodies[..n]);
      SentToTagged(conn, bodies[..n], c);
      assert bodies[..n] + [bodies[n]] == bodies;
    }
  }

  /** The connection whose bytes are in the buffer has exactly its own rest there; every other one
      has ended its last frame; and everybody was sent the own bodies. */
  ghost predicate Apart(pieces: seq<Piece>, conn: nat) {
    var served, own := Serve(pieces), Own(pieces, conn);
    && SentTo(served.sent, conn) == own.bodies
    && (if pieces != [] && pieces[|pieces| - 1].conn == conn
        then served.rest == own.rest && served.broken == own.broken
        else own.rest == [] && !own.broken)
  }

  lemma OwnSnoc(pieces: seq<Piece>, piece: Piece, conn: nat)
    ensures Own(pieces + [piece], conn) ==
              if piece.conn == conn then Feed(Own(pieces, conn), piece.data) else Own(pieces, conn)
  {
    var all := pieces + [piece];
    assert all[..|pieces|] == pieces;
    hide Feed;
    if piece.conn == conn {
      var chunks := PiecesOf(pieces, conn);
      assert (chunks + [piece.data])[..|chunks|] == chunks;
    } else {
      assert PiecesOf(all, conn) == PiecesOf(pieces, conn);
    }
  }

  lemma ServeSnoc(pieces: seq<Piece>, piece: Piece, conn: nat)
    ensures var b, s := Serve(pieces), Serve(pieces + [piece]);
            if b.broken then s == b.(rest := b.rest + piece.data)
            else
              var p := Parse(b.rest + piece.data);
              && s.rest == p.rest && s.broken == p.broken
              && SentTo(s.sent, conn) == SentTo(b.sent, conn) + if piece.conn == conn then p.bodies else []
  {
    assert (pieces + [piece])[..|pieces|] == pieces;
    var b := Serve(pieces);
    if !b.broken {
      var p := Parse(b.rest + piece.data);
      SentToConcat(b.sent, Tagged(piece.conn, p.bodies), conn);
      SentToTagged(piece.conn, p.bodies, conn);
    }
  }

  lemma ApartStep(pieces: seq<Piece>, piece: Piece, conn: nat)
    requires Apart(pieces, conn)
    requires pieces != [] ==> Apart(pieces, pieces[|pieces| - 1].conn)
    requires pieces != [] && pieces[|pieces| - 1].conn != piece.conn ==>
               var own := Own(pieces, pieces[|pieces| - 1].conn); own.rest == [] && !own.broken
    ensures Apart(pieces + [piece], conn)
  {
    ServeSnoc(pieces, piece, conn);
    OwnSnoc(pieces, piece, conn);
    hide Parse, SentTo, Own;
    var b := Serve(pieces);
    assert pieces == [] ==> b == Served([], [], false);
  }

  lemma {:induction false} CleanStaysApart(pieces: seq<Piece>, n: nat, conn: nat)
    requires CleanHandovers(pieces) && n <= |pieces|
    ensures Apart(pieces[..n], conn)
    decreases n
  {
    if n == 0 {
      assert pieces[..0] == [];
      assert SentTo([], conn) == [];
    } else {
      var front := pieces[..n - 1];
      CleanStaysApart(pieces, n - 1, conn);
      if n > 1 {
        CleanStaysApart(pieces, n - 1, pieces[n - 2].conn);
      }
      hide Apart;
      assert front + [pieces[n - 1]] == pieces[..n];
      ApartStep(front, pieces[n - 1], conn);
    }
  }

  /** With clean handovers every connection is sent exactly the bodies of its own frames. */
  lemma CleanHandoversDeliver(pieces: seq<Piece>, conn: nat)
    requires CleanHandovers(pieces)
    ensures SentTo(Serve(pieces).sent, conn) == Parse(Concat(PiecesOf(pieces, conn))).bodies
  {
    CleanStaysApart(pieces, |pieces|, conn);
    assert pieces[..|pieces|] == pieces;
    ChunkIndependence(PiecesOf(pieces, conn));
  }

  // ---- an unclean handover --------------------------------------------------

  /** A connection that takes over with a whole frame is served exactly that frame's body. */
  ghost predicate ServesNewcomer(rest: seq<byte>) {
    forall body: seq<byte> | HEADER_LEN + |body| <= INT32_MAX :: Parse(rest + Framed(body)).bodies == [body]
  }

  lemma EmptyFrameBehind(rest: seq<byte>)
    requires rest != [] && FrontOf(rest).Wait?
    ensures Parse(rest + Framed([])).bodies != [[]]
  {
    var s := rest + Framed([]);
    assert Framed([]) == [2, 5, 0, 0, 0];
    if |rest| >= HEADER_LEN {
      assert s[1..5] == rest[1..5];
      match FrontOf(s)
      case Frame(length) => assert Parse(s).bodies[0] == s[HEADER_LEN..length];
      case _ =>
    } else {
      assert s[|rest|] == 2;
      assert FromLe32(s[1..5]) > |s|;
    }
  }

  /** A newcomer's whole frames are served, whatever their bodies, exactly when nobody else's bytes
      are left in the buffer. */
  lemma ServesNewcomerIff(rest: seq<byte>)
    requires FrontOf(rest).Wait?
    ensures ServesNewcomer(rest) <==> rest == []
  {
    hide Parse, Framed, FrontOf;
    if rest == [] {
      forall body: seq<byte> | HEADER_LEN + |body| <= INT32_MAX ensures Parse(rest + Framed(body)).bodies == [body] {
        assert rest + Framed(body) == Framed(body);
        WholeFrame(body);
      }
    } else {
      EmptyFrameBehind(rest);
      var none: seq<byte> := [];
      assert HEADER_LEN + |none| <= INT32_MAX && Parse(rest + Framed(none)).bodies != [none];
    }
  }

  /** A connection that is cut off within a frame, and another one that goes on. */
  lemma CutOff(first: Piece, second: Piece)
    requires first.conn != second.conn && first.data != [] && Parse(first.data) == Parsed([], first.data, false)
    ensures !CleanHandovers([first, second])
    ensures SentTo(Serve([first, second]).sent, second.conn) == Parse(first.data + second.data).bodies
    ensures Own([first, second], second.conn).bodies == Parse(second.data).bodies
  {
    hide Parse, Feed;
    var c := second.conn;
    assert [first, second] == [first] + [second] && [] + [first] == [first];
    assert [] + first.data == first.data && [] + second.data == second.data;
    ServeSnoc([], first, c);
    ServeSnoc([first], second, c);
    OwnSnoc([], first, first.conn);
    OwnSnoc([], first, c);
    OwnSnoc([first], second, c);
    FeedFirst(first.data);
    FeedFirst(second.data);
    assert [first, second][..1] == [first] && [first, second][0] == first;
  }

  lemma FeedFirst(data: seq<byte>)
    ensures Feed(Parsed([], [], false), data) == Parse(data)
  {
    assert [] + data == data;
  }

  /** Connection 1 is cut off behind a header, connection 2 sends a whole frame with body [9], and is
      sent back a byte of its own header. */
  lemma FramesMix()
    ensures var pieces := [Piece(1, [2, 6, 0, 0, 0]), Piece(2, Framed([9]))];
            && !CleanHandovers(pieces)
            && SentTo(Serve(pieces).sent, 2) == [[2]] && Own(pieces, 2).bodies == [[9]]
  {
    var header: seq<byte> := [2, 6, 0, 0, 0];
    HeaderWaits(header);
    MixedParse(header + Framed([9]));
    WholeFrame([9]);
    hide Parse, CleanHandovers, SentTo, Serve, Own;
    CutOff(Piece(1, header), Piece(2, Framed([9])));
  }

  lemma WholeFrame(body: seq<byte>)
    requires HEADER_LEN + |body| <= INT32_MAX
    ensures Parse(Framed(body)).bodies == [body]
  {
    assert Stream([body]) == Framed(body) + Stream([]) == Framed(body);
    assert Framed(body) == Stream([body]) + [];
    StreamParses([body], []);
  }

  lemma HeaderWaits(header: seq<byte>)
    requires header == [2, 6, 0, 0, 0]
    ensures Parse(header) == Parsed([], header, false)
  {
    assert header[1..5] == [6, 0, 0, 0];
  }

  lemma MixedParse(bytes: seq<byte>)
    requires bytes == [2, 6, 0, 0, 0, 2, 6, 0, 0, 0, 9]
    ensures Parse(bytes) == Parsed([[2]], [6, 0, 0, 0, 9], false)
  {
    assert bytes[1..5] == [6, 0, 0, 0];
    assert bytes[5..6] == [2] && bytes[6..] == [6, 0, 0, 0, 9];
    assert Parse(bytes[6..]) == Parsed([], bytes[6..], false);
  }
}
