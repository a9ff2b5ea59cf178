// When the parts of a tree, wherever they are in it, print the text that was printed.

module MimeSharedCompletion {
  import opened Results
  import opened MimeText
  import opened MimeHeaders
  import opened MimeContentType
  import opened MimeMultipart
  import opened MimeParts
  import opened MimeInvention
  import opened MimeCompletion
  import opened MimeSharing

  // ---------- headers that grow ----------

  // More text in the Content-Type header
  ghost predicate Grown(h: seq<Header>, g: seq<Header>, default: string) {
    exists u :: u != "" && u[0] == ';' && g == AppendToFirst(WithContentType(h, default), u)
  }

  lemma {:induction false} AppendTwice(hs: seq<Header>, u: string, v: string)
    ensures AppendToFirst(AppendToFirst(hs, u), v) == AppendToFirst(hs, u + v)
  {
    hide EqualIgnoringCase;
    if hs != [] {
      if EqualIgnoringCase(hs[0].name, "Content-Type") {
        var h := Header(hs[0].name, hs[0].value + u);
        assert ([h] + hs[1..])[1..] == hs[1..] && hs[0].value + u + v == hs[0].value + (u + v);
      } else {
        assert ([hs[0]] + AppendToFirst(hs[1..], u))[1..] == AppendToFirst(hs[1..], u);
        AppendTwice(hs[1..], u, v);
      }
    }
  }

  lemma {:induction false} StillHas(hs: seq<Header>, u: string)
    requires HasContentType(hs)
    ensures HasContentType(AppendToFirst(hs, u))
  {
    hide EqualIgnoringCase;
    var gs := AppendToFirst(hs, u);
    if EqualIgnoringCase(hs[0].name, "Content-Type") {
      assert gs[0] in gs;
    } else {
      var h :| h in hs && EqualIgnoringCase(h.name, "Content-Type");
      assert h in hs[1..];
      StillHas(hs[1..], u);
      var g :| g in AppendToFirst(hs[1..], u) && EqualIgnoringCase(g.name, "Content-Type");
      assert g in gs;
    }
  }

  lemma HasNow(hs: seq<Header>, default: string)
    ensures HasContentType(WithContentType(hs, default))
  {
    hide EqualIgnoringCase;
    MixedName();
    assert Header("Content-Type", default) in hs + [Header("Content-Type", default)];
  }

  lemma GrownTwice(h: seq<Header>, g: seq<Header>, k: seq<Header>, default: string)
    requires Grown(h, g, default) && Grown(g, k, default)
    ensures Grown(h, k, default)
  {
    hide HasContentType, AppendToFirst;
    var u :| u != "" && u[0] == ';' && g == AppendToFirst(WithContentType(h, default), u);
    var v :| v != "" && v[0] == ';' && k == AppendToFirst(WithContentType(g, default), v);
    HasNow(h, default);
    StillHas(WithContentType(h, default), u);
    AppendTwice(WithContentType(h, default), u, v);
    assert u + v != "" && (u + v)[0] == ';';
  }

  lemma {:induction false} LinesGrown(hs: seq<Header>, u: string, x: string, y: string)
    requires HasContentType(hs) && u != "" && u[0] == ';'
    ensures Diverge(PrintHeaderLines(hs) + x, PrintHeaderLines(AppendToFirst(hs, u)) + y)
  {
    hide EqualIgnoringCase, Diverge, PrintHeader, PrintHeaderLines;
    var h := hs[0];
    var gs := AppendToFirst(hs, u);
    LinesFrom(hs, x);
    LinesFrom(gs, y);
    if EqualIgnoringCase(h.name, "Content-Type") {
      assert gs[1..] == hs[1..];
      FirstLineGrown(h, u, PrintHeaderLines(hs[1..]) + x, PrintHeaderLines(hs[1..]) + y);
    } else {
      var c :| c in hs && EqualIgnoringCase(c.name, "Content-Type");
      assert c in hs[1..];
      assert gs[1..] == AppendToFirst(hs[1..], u);
      var more, others := PrintHeaderLines(hs[1..]) + x, PrintHeaderLines(gs[1..]) + y;
      LinesGrown(hs[1..], u, x, y);
      DivergeBetween(PrintHeader(h), more, others, "", "");
      assert PrintHeader(h) + more + "" == PrintHeader(h) + more && PrintHeader(h) + others + "" == PrintHeader(h) + others;
    }
  }

  lemma LinesFrom(hs: seq<Header>, x: string)
    requires hs != []
    ensures PrintHeaderLines(hs) + x == PrintHeader(hs[0]) + (PrintHeaderLines(hs[1..]) + x)
  {
    hide PrintHeader;
  }

  lemma FirstLineGrown(h: Header, u: string, x: string, y: string)
    requires u != "" && u[0] == ';'
    ensures Diverge(PrintHeader(h) + x, PrintHeader(Header(h.name, h.value + u)) + y)
  {
    var before := h.name + ":" + h.value;
    assert Diverge(CRLF, u) by { assert CRLF[..0] == u[..0]; }
    DivergeBetween(before, CRLF, u, x, CRLF + y);
    assert PrintHeader(h) + x == before + CRLF + x;
    assert PrintHeader(Header(h.name, h.value + u)) + y == before + u + (CRLF + y);
  }

  lemma {:induction false} LinesAppend(hs: seq<Header>, h: Header)
    ensures PrintHeaderLines(hs + [h]) == PrintHeaderLines(hs) + PrintHeader(h)
  {
    if hs == [] {
      assert hs + [h] == [h] && [h][1..] == [];
    } else {
      assert (hs + [h])[1..] == hs[1..] + [h];
      LinesAppend(hs[1..], h);
    }
  }

  lemma GrownDiverge(h: seq<Header>, g: seq<Header>, default: string, x: string, y: string)
    requires Grown(h, g, default)
    ensures Diverge(PrintHeaders(h) + x, PrintHeaders(g) + y)
  {
    hide AppendToFirst, HasContentType, PrintHeaderLines, Diverge;
    var u :| u != "" && u[0] == ';' && g == AppendToFirst(WithContentType(h, default), u);
    if HasContentType(h) {
      LinesGrown(h, u, CRLF + x, CRLF + y);
      assert PrintHeaders(h) + x == PrintHeaderLines(h) + (CRLF + x);
      assert PrintHeaders(g) + y == PrintHeaderLines(g) + (CRLF + y);
    } else {
      NewHeaderDiverges(h, default, u, x, y);
    }
  }

  lemma NewHeaderDiverges(h: seq<Header>, default: string, u: string, x: string, y: string)
    requires !HasContentType(h)
    ensures Diverge(PrintHeaders(h) + x, PrintHeaders(AppendToFirst(h + [Header("Content-Type", default)], u)) + y)
  {
    hide EqualIgnoringCase, PrintHeaderLines, Diverge, PrintHeader;
    var c := Header("Content-Type", default + u);
    AppendToNew(h, default, u);
    LinesAppend(h, c);
    assert Diverge(CRLF, PrintHeader(c)) by { StartsDiffer(default + u); }
    DivergeBetween(PrintHeaderLines(h), CRLF, PrintHeader(c), x, CRLF + y);
    assert PrintHeaderLines(h) + PrintHeader(c) + CRLF + y == PrintHeaderLines(h) + PrintHeader(c) + (CRLF + y);
  }

  lemma StartsDiffer(v: string)
    ensures Diverge(CRLF, PrintHeader(Header("Content-Type", v)))
  {
    var s := PrintHeader(Header("Content-Type", v));
    assert CRLF[..0] == s[..0] && s[0] == 'C';
  }

  lemma {:induction false} AppendToNew(h: seq<Header>, default: string, u: string)
    requires !HasContentType(h)
    ensures AppendToFirst(h + [Header("Content-Type", default)], u) == h + [Header("Content-Type", default + u)]
  {
    hide EqualIgnoringCase;
    var c := Header("Content-Type", default);
    if h == [] {
      MixedName();
      assert h + [c] == [c] && [c][1..] == [];
      assert h + [Header("Content-Type", default + u)] == [Header("Content-Type", default + u)];
    } else {
      assert h[0] in h && (h + [c])[1..] == h[1..] + [c];
      assert !HasContentType(h[1..]) by { assert forall g :: g in h[1..] ==> g in h; }
      AppendToNew(h[1..], default, u);
    }
  }

  // ---------- what happens to the headers of a tree ----------

  // Kinds and default types
  type Facts<Id> = map<Id, (Kind, string)>

  ghost predicate Coherent<Id>(s: Shape<Id>, fs: Facts<Id>)
    decreases s, 1
  {
    s.id in fs && fs[s.id] == (s.kind, s.defaultType) && EachCoherent(s.subparts, fs)
  }

  ghost predicate EachCoherent<Id>(ss: seq<Shape<Id>>, fs: Facts<Id>)
    decreases ss, 0
  {
    ss == [] || (Coherent(ss[0], fs) && EachCoherent(ss[1..], fs))
  }

  ghost function TypeAt<Id>(hs: Store<Id>, fs: Facts<Id>, id: Id): string
    requires id in fs
  {
    ContentTypeHeader(HeadersAt(hs, id), fs[id].1)
  }

  // Only the headers of multiparts without a boundary have changed.
  ghost predicate Later<Id>(hs: Store<Id>, gs: Store<Id>, fs: Facts<Id>) {
    forall id :: id in fs ==> LaterAt(hs, gs, fs, id)
  }

  ghost predicate LaterAt<Id>(hs: Store<Id>, gs: Store<Id>, fs: Facts<Id>, id: Id)
    requires id in fs
  {
    || HeadersAt(gs, id) == HeadersAt(hs, id)
    || (fs[id].0 == MultiPart && Boundary(TypeAt(hs, fs, id)).None? && Grown(HeadersAt(hs, id), HeadersAt(gs, id), fs[id].1))
  }

  // The changed ones have got a boundary that is found.
  ghost predicate Completes<Id>(hs: Store<Id>, gs: Store<Id>, fs: Facts<Id>) {
    forall id :: id in fs ==> CompletesAt(hs, gs, fs, id)
  }

  ghost predicate CompletesAt<Id>(hs: Store<Id>, gs: Store<Id>, fs: Facts<Id>, id: Id)
    requires id in fs
  {
    || HeadersAt(gs, id) == HeadersAt(hs, id)
    || (fs[id].0 == MultiPart && TakenWhole(TypeAt(hs, fs, id)) && Boundary(TypeAt(gs, fs, id)).Some?)
  }

  lemma LaterTwice<Id>(hs: Store<Id>, gs: Store<Id>, ks: Store<Id>, fs: Facts<Id>)
    requires Later(hs, gs, fs) && Later(gs, ks, fs)
    ensures Later(hs, ks, fs)
  {
    hide Grown, Boundary, ContentTypeHeader;
    forall id | id in fs ensures LaterAt(hs, ks, fs, id) {
      assert LaterAt(hs, gs, fs, id) && LaterAt(gs, ks, fs, id);
      var h, g, k, default := HeadersAt(hs, id), HeadersAt(gs, id), HeadersAt(ks, id), fs[id].1;
      if g != h && k != g { GrownTwice(h, g, k, default); }
    }
  }

  lemma CompletesTwice<Id>(hs: Store<Id>, gs: Store<Id>, ks: Store<Id>, fs: Facts<Id>)
    requires Completes(hs, gs, fs) && Completes(gs, ks, fs) && Later(gs, ks, fs)
    ensures Completes(hs, ks, fs)
  {
    hide Grown, Boundary, ContentTypeHeader, TakenWhole;
    forall id | id in fs ensures CompletesAt(hs, ks, fs, id) {
      assert CompletesAt(hs, gs, fs, id) && CompletesAt(gs, ks, fs, id) && LaterAt(gs, ks, fs, id);
    }
  }

  // A boundary is added.
  lemma OneLater<Id>(s: Shape<Id>, hs: Store<Id>, clock: int, fs: Facts<Id>)
    requires Coherent(s, fs) && s.kind == MultiPart && AppendPhrase(HeadersAt(hs, s.id), s.defaultType, Invented(clock)).Some?
    ensures var gs := hs[s.id := AppendPhrase(HeadersAt(hs, s.id), s.defaultType, Invented(clock)).value];
            Later(hs, gs, fs) && (TakenWhole(TypeAt(hs, fs, s.id)) ==> Completes(hs, gs, fs))
  {
    hide Boundary, ContentTypeHeader, ParseContentType, TakenWhole, Invented, AppendToFirst, HasContentType;
    var own := HeadersAt(hs, s.id);
    var gs := hs[s.id := AppendPhrase(own, s.defaultType, Invented(clock)).value];
    CompletedHeader(own, s.defaultType, clock);
    assert Grown(own, gs[s.id], s.defaultType) by { assert BoundaryPhrase(Invented(clock))[0] == ';'; }
    forall id | id in fs ensures LaterAt(hs, gs, fs, id) { assert id != s.id ==> HeadersAt(gs, id) == HeadersAt(hs, id); }
    if TakenWhole(TypeAt(hs, fs, s.id)) {
      forall id | id in fs ensures CompletesAt(hs, gs, fs, id) { assert id != s.id ==> HeadersAt(gs, id) == HeadersAt(hs, id); }
    }
  }

  lemma NoneLater<Id>(hs: Store<Id>, fs: Facts<Id>)
    ensures Later(hs, hs, fs) && Completes(hs, hs, fs)
  {
  }

  lemma {:induction false} StreamLater<Id>(s: Shape<Id>, hs: Store<Id>, clock: nat -> int, n: nat, fs: Facts<Id>)
    requires Coherent(s, fs) && StreamShared(s, hs, clock, n).Some?
    ensures Later(hs, StreamShared(s, hs, clock, n).value.headers, fs)
    decreases s, 1
  {
    hide ContentTypeHeader, Boundary, PrintHeaders, PrintMultipart, AppendPhrase, Invented, Later, HeadersAt;
    NoneLater(hs, fs);
    var o := StreamShared(s, hs, clock, n).value;
    match s.kind
    case SimplePart =>
    case MessagePart =>
      StreamLater(s.subparts[0], hs, clock, n, fs);
    case MultiPart =>
      var own := HeadersAt(hs, s.id);
      if Boundary(ContentTypeHeader(own, s.defaultType)).Some? {
        AllLater(s.subparts, hs, clock, n, fs);
      } else {
        var gs := hs[s.id := AppendPhrase(own, s.defaultType, Invented(clock(n))).value];
        OneLater(s, hs, clock(n), fs);
        AllLater(s.subparts, gs, clock, n + 1, fs);
        LaterTwice(hs, gs, o.headers, fs);
      }
  }

  lemma {:induction false} AllLater<Id>(ss: seq<Shape<Id>>, hs: Store<Id>, clock: nat -> int, n: nat, fs: Facts<Id>)
    requires EachCoherent(ss, fs) && SharedAll(ss, hs, clock, n).Some?
    ensures Later(hs, SharedAll(ss, hs, clock, n).value.headers, fs)
    decreases ss, 0
  {
    hide StreamShared, Later, Coherent;
    NoneLater(hs, fs);
    if ss != [] {
      var o := StreamShared(ss[0], hs, clock, n).value;
      StreamLater(ss[0], hs, clock, n, fs);
      AllLater(ss[1..], o.headers, clock, o.n, fs);
      LaterTwice(hs, o.headers, SharedAll(ss, hs, clock, n).value.headers, fs);
    }
  }

  // What prints without an invention still prints the same.
  lemma {:induction false} PrintableKept<Id>(s: Shape<Id>, hs: Store<Id>, gs: Store<Id>, fs: Facts<Id>)
    requires Coherent(s, fs) && Later(hs, gs, fs) && PrintMime(ValueOf(s, hs)).Some?
    ensures PrintMime(ValueOf(s, gs)) == PrintMime(ValueOf(s, hs))
    decreases s, 1
  {
    hide ContentTypeHeader, Boundary, PrintHeaders, BoundaryLine, JoinSections, PrintPrologLine, Grown, HeadersAt;
    assert LaterAt(hs, gs, fs, s.id);
    match s.kind
    case SimplePart =>
    case MessagePart =>
      PrintableKept(s.subparts[0], hs, gs, fs);
    case MultiPart =>
      AllPrintableKept(s.subparts, hs, gs, fs);
  }

  lemma {:induction false} AllPrintableKept<Id>(ss: seq<Shape<Id>>, hs: Store<Id>, gs: Store<Id>, fs: Facts<Id>)
    requires EachCoherent(ss, fs) && Later(hs, gs, fs) && PrintAll(ValuesOf(ss, hs)).Some?
    ensures PrintAll(ValuesOf(ss, gs)) == PrintAll(ValuesOf(ss, hs))
    decreases ss, 0
  {
    hide PrintMime, ValueOf, Later, Coherent;
    if ss != [] {
      PrintableKept(ss[0], hs, gs, fs);
      AllPrintableKept(ss[1..], hs, gs, fs);
    }
  }

  // Completing headers that are taken to their ends changes nothing about which are.
  lemma {:induction false} TakenKept<Id>(s: Shape<Id>, hs: Store<Id>, gs: Store<Id>, fs: Facts<Id>)
    requires Coherent(s, fs) && Completes(hs, gs, fs)
    ensures AllTaken(ValueOf(s, gs)) <==> AllTaken(ValueOf(s, hs))
    decreases s, 1
  {
    hide ContentTypeHeader, Boundary, TakenWhole, HeadersAt;
    assert CompletesAt(hs, gs, fs, s.id);
    AllTakenKept(s.subparts, hs, gs, fs);
  }

  lemma {:induction false} AllTakenKept<Id>(ss: seq<Shape<Id>>, hs: Store<Id>, gs: Store<Id>, fs: Facts<Id>)
    requires EachCoherent(ss, fs) && Completes(hs, gs, fs)
    ensures EachTaken(ValuesOf(ss, gs)) <==> EachTaken(ValuesOf(ss, hs))
    decreases ss, 0
  {
    hide AllTaken, ValueOf, Completes, Coherent;
    if ss != [] {
      TakenKept(ss[0], hs, gs, fs);
      AllTakenKept(ss[1..], hs, gs, fs);
    }
  }

  // ---------- where all headers are taken to their ends ----------

  // The tree prints what was printed, then and later.
  lemma {:induction false} TakenText<Id>(s: Shape<Id>, hs: Store<Id>, clock: nat -> int, n: nat, fs: Facts<Id>, later: Store<Id>)
    requires Coherent(s, fs) && StreamShared(s, hs, clock, n).Some? && AllTaken(ValueOf(s, hs))
    requires Later(StreamShared(s, hs, clock, n).value.headers, later, fs)
    ensures var o := StreamShared(s, hs, clock, n).value;
            PrintMime(ValueOf(s, later)) == Some(o.text) && Completes(hs, o.headers, fs)
    decreases s, 1
  {
    hide ContentTypeHeader, Boundary, PrintHeaders, PrintMultipart, AppendPhrase, Invented, TakenWhole, Later, Completes, HeadersAt;
    NoneLater(hs, fs);
    match s.kind
    case SimplePart =>
      OwnKept(s, hs, later, fs);
    case MessagePart =>
      OwnKept(s, StreamShared(s, hs, clock, n).value.headers, later, fs);
      StreamLater(s, hs, clock, n, fs);
      OwnKept(s, hs, StreamShared(s, hs, clock, n).value.headers, fs);
      TakenText(s.subparts[0], hs, clock, n, fs, later);
    case MultiPart =>
      var own := HeadersAt(hs, s.id);
      if Boundary(ContentTypeHeader(own, s.defaultType)).Some? {
        TakenMultipart(s, hs, Boundary(ContentTypeHeader(own, s.defaultType)).value, clock, n, fs, later);
      } else {
        var b := Invented(clock(n));
        var gs := hs[s.id := AppendPhrase(own, s.defaultType, b).value];
        OneLater(s, hs, clock(n), fs);
        NowFound(s, hs, clock(n), fs);
        TakenKept(s, hs, gs, fs);
        TakenMultipart(s, gs, b, clock, n + 1, fs, later);
        MultipartLater(s, gs, b, clock, n + 1, fs);
        CompletesTwice(hs, gs, StreamShared(s, hs, clock, n).value.headers, fs);
      }
  }

  // Headers of other parts, and of multiparts with a boundary, stay.
  lemma OwnKept<Id>(s: Shape<Id>, hs: Store<Id>, gs: Store<Id>, fs: Facts<Id>)
    requires Coherent(s, fs) && Later(hs, gs, fs)
    requires s.kind == MultiPart ==> Boundary(ContentTypeHeader(HeadersAt(hs, s.id), s.defaultType)).Some?
    ensures HeadersAt(gs, s.id) == HeadersAt(hs, s.id)
  {
    hide Grown, Boundary, ContentTypeHeader, HeadersAt;
    assert LaterAt(hs, gs, fs, s.id);
  }

  lemma NowFound<Id>(s: Shape<Id>, hs: Store<Id>, clock: int, fs: Facts<Id>)
    requires Coherent(s, fs) && AppendPhrase(HeadersAt(hs, s.id), s.defaultType, Invented(clock)).Some?
    ensures var gs := hs[s.id := AppendPhrase(HeadersAt(hs, s.id), s.defaultType, Invented(clock)).value];
            Boundary(ContentTypeHeader(HeadersAt(gs, s.id), s.defaultType)) == Some(Invented(clock)) <==> TakenWhole(TypeAt(hs, fs, s.id))
  {
    hide ContentTypeHeader, Boundary, AppendPhrase, Invented, TakenWhole;
    CompletedHeader(HeadersAt(hs, s.id), s.defaultType, clock);
  }

  lemma MultipartLater<Id>(s: Shape<Id>, hs: Store<Id>, b: string, clock: nat -> int, n: nat, fs: Facts<Id>)
    requires Coherent(s, fs) && SharedMultipart(s, hs, b, clock, n).Some?
    ensures Later(hs, SharedMultipart(s, hs, b, clock, n).value.headers, fs)
  {
    hide Later;
    AllLater(s.subparts, hs, clock, n, fs);
  }

  lemma {:induction false} TakenMultipart<Id>(s: Shape<Id>, hs: Store<Id>, b: string, clock: nat -> int, n: nat, fs: Facts<Id>, later: Store<Id>)
    requires Coherent(s, fs) && s.kind == MultiPart && SharedMultipart(s, hs, b, clock, n).Some? && AllTaken(ValueOf(s, hs))
    requires Boundary(ContentTypeHeader(HeadersAt(hs, s.id), s.defaultType)) == Some(b)
    requires Later(SharedMultipart(s, hs, b, clock, n).value.headers, later, fs)
    ensures var o := SharedMultipart(s, hs, b, clock, n).value;
            PrintMime(ValueOf(s, later)) == Some(o.text) && Completes(hs, o.headers, fs)
    decreases s, 0
  {
    hide ContentTypeHeader, Boundary, PrintHeaders, BoundaryLine, JoinSections, PrintPrologLine, TakenWhole, Later, Completes, HeadersAt;
    var o := SharedMultipart(s, hs, b, clock, n).value;
    MultipartLater(s, hs, b, clock, n, fs);
    LaterTwice(hs, o.headers, later, fs);
    OwnKept(s, hs, later, fs);
    TakenTexts(s.subparts, hs, clock, n, fs, later);
  }

  lemma {:induction false} TakenTexts<Id>(ss: seq<Shape<Id>>, hs: Store<Id>, clock: nat -> int, n: nat, fs: Facts<Id>, later: Store<Id>)
    requires EachCoherent(ss, fs) && SharedAll(ss, hs, clock, n).Some? && EachTaken(ValuesOf(ss, hs))
    requires Later(SharedAll(ss, hs, clock, n).value.headers, later, fs)
    ensures var all := SharedAll(ss, hs, clock, n).value;
            PrintAll(ValuesOf(ss, later)) == Some(all.texts) && Completes(hs, all.headers, fs)
    decreases ss, 0
  {
    hide StreamShared, PrintMime, ValueOf, AllTaken, Later, Completes, Coherent;
    NoneLater(hs, fs);
    if ss != [] {
      var o := StreamShared(ss[0], hs, clock, n).value;
      var all := SharedAll(ss, hs, clock, n).value;
      AllLater(ss[1..], o.headers, clock, o.n, fs);
      LaterTwice(o.headers, all.headers, later, fs);
      TakenText(ss[0], hs, clock, n, fs, later);
      AllTakenKept(ss[1..], hs, o.headers, fs);
      TakenTexts(ss[1..], o.headers, clock, o.n, fs, later);
      CompletesTwice(hs, o.headers, all.headers, fs);
    }
  }

  // ---------- where one is not ----------

  // The tree prints another text, or none.
  lemma {:induction false} OtherSharedText<Id>(s: Shape<Id>, hs: Store<Id>, clock: nat -> int, n: nat, fs: Facts<Id>, later: Store<Id>)
    requires Coherent(s, fs) && StreamShared(s, hs, clock, n).Some? && !AllTaken(ValueOf(s, hs))
    requires Later(StreamShared(s, hs, clock, n).value.headers, later, fs)
    ensures var p := PrintMime(ValueOf(s, later)); p.Some? ==> Diverge(StreamShared(s, hs, clock, n).value.text, p.value)
    decreases s, 1
  {
    hide ContentTypeHeader, Boundary, PrintHeaders, PrintMultipart, AppendPhrase, Invented, TakenWhole, Later, Completes, HeadersAt, Diverge, PrintMime;
    match s.kind
    case MessagePart =>
      OtherSharedMessage(s, hs, clock, n, fs, later);
    case MultiPart =>
      var own := HeadersAt(hs, s.id);
      if Boundary(ContentTypeHeader(own, s.defaultType)).Some? {
        OtherSections(s, hs, Boundary(ContentTypeHeader(own, s.defaultType)).value, clock, n, fs, later);
      } else {
        var b := Invented(clock(n));
        var gs := hs[s.id := AppendPhrase(own, s.defaultType, b).value];
        OneLater(s, hs, clock(n), fs);
        NowFound(s, hs, clock(n), fs);
        if TakenWhole(ContentTypeHeader(own, s.defaultType)) {
          TakenKept(s, hs, gs, fs);
          OtherSections(s, gs, b, clock, n + 1, fs, later);
        } else {
          OtherHeader(s, gs, b, clock, n + 1, fs, later);
        }
      }
  }

  lemma {:induction false} OtherSharedMessage<Id>(s: Shape<Id>, hs: Store<Id>, clock: nat -> int, n: nat, fs: Facts<Id>, later: Store<Id>)
    requires Coherent(s, fs) && s.kind == MessagePart && StreamShared(s, hs, clock, n).Some? && !AllTaken(ValueOf(s, hs))
    requires Later(StreamShared(s, hs, clock, n).value.headers, later, fs)
    ensures var p := PrintMime(ValueOf(s, later)); p.Some? ==> Diverge(StreamShared(s, hs, clock, n).value.text, p.value)
    decreases s, 0
  {
    hide PrintHeaders, Later, HeadersAt, Diverge;
    var o := StreamShared(s.subparts[0], hs, clock, n).value;
    var inner := PrintMime(ValueOf(s.subparts[0], later));
    StreamLater(s, hs, clock, n, fs);
    LaterTwice(hs, o.headers, later, fs);
    OwnKept(s, hs, later, fs);
    assert s.subparts[1..] == [] && EachTaken(ValuesOf(s.subparts[1..], hs));
    OtherSharedText(s.subparts[0], hs, clock, n, fs, later);
    if inner.Some? {
      var headers := PrintHeaders(HeadersAt(hs, s.id));
      DivergeBetween(headers, o.text, inner.value, "", "");
      assert headers + o.text + "" == headers + o.text && headers + inner.value + "" == headers + inner.value;
    }
  }

  // A boundary that is not found again
  lemma OtherHeader<Id>(s: Shape<Id>, hs: Store<Id>, b: string, clock: nat -> int, n: nat, fs: Facts<Id>, later: Store<Id>)
    requires Coherent(s, fs) && s.kind == MultiPart && SharedMultipart(s, hs, b, clock, n).Some? && All(b, IsPrintable)
    requires Boundary(ContentTypeHeader(HeadersAt(hs, s.id), s.defaultType)) != Some(b)
    requires Later(SharedMultipart(s, hs, b, clock, n).value.headers, later, fs)
    ensures var p := PrintMime(ValueOf(s, later)); p.Some? ==> Diverge(SharedMultipart(s, hs, b, clock, n).value.text, p.value)
  {
    hide ContentTypeHeader, Boundary, PrintHeaders, PrintMultipart, Grown, HeadersAt, Diverge, Later, PrintAll;
    var h, g := HeadersAt(hs, s.id), HeadersAt(later, s.id);
    MultipartLater(s, hs, b, clock, n, fs);
    LaterTwice(hs, SharedMultipart(s, hs, b, clock, n).value.headers, later, fs);
    assert LaterAt(hs, later, fs, s.id) by { LaterMeans(hs, later, fs, s.id); }
    var p, q := ValueOf(s, hs), ValueOf(s, later);
    if PrintMime(q).Some? {
      var c := Boundary(ContentTypeHeader(g, s.defaultType)).value;
      var ts, us := SharedAll(s.subparts, hs, clock, n).value.texts, PrintAll(q.subparts).value;
      if g == h {
        MultipartsDiverge(p, q, PrintHeaders(h), ts, us, b, c);
      } else {
        GrownDiverge(h, g, s.defaultType, PrintMultipart(p, ts, b), PrintMultipart(q, us, c));
      }
    }
  }

  lemma LaterMeans<Id>(hs: Store<Id>, gs: Store<Id>, fs: Facts<Id>, id: Id)
    requires Later(hs, gs, fs) && id in fs
    ensures LaterAt(hs, gs, fs, id)
  {
  }

  lemma {:induction false} OtherSections<Id>(s: Shape<Id>, hs: Store<Id>, b: string, clock: nat -> int, n: nat, fs: Facts<Id>, later: Store<Id>)
    requires Coherent(s, fs) && s.kind == MultiPart && SharedMultipart(s, hs, b, clock, n).Some? && !AllTaken(ValueOf(s, hs))
    requires Boundary(ContentTypeHeader(HeadersAt(hs, s.id), s.defaultType)) == Some(b)
    requires Later(SharedMultipart(s, hs, b, clock, n).value.headers, later, fs)
    ensures var p := PrintMime(ValueOf(s, later)); p.Some? ==> Diverge(SharedMultipart(s, hs, b, clock, n).value.text, p.value)
    decreases s, 0
  {
    hide ContentTypeHeader, Boundary, PrintHeaders, PrintMultipart, TakenWhole, HeadersAt, Diverge, Later, PrintAll;
    MultipartLater(s, hs, b, clock, n, fs);
    LaterTwice(hs, SharedMultipart(s, hs, b, clock, n).value.headers, later, fs);
    OwnKept(s, hs, later, fs);
    OtherSharedTexts(s.subparts, hs, clock, n, fs, later);
    var p, q := ValueOf(s, hs), ValueOf(s, later);
    if PrintMime(q).Some? {
      var ts, us := SharedAll(s.subparts, hs, clock, n).value.texts, PrintAll(q.subparts).value;
      BodiesDiverge(p, q, PrintHeaders(HeadersAt(hs, s.id)), ts, us, b);
    }
  }

  lemma {:induction false} OtherSharedTexts<Id>(ss: seq<Shape<Id>>, hs: Store<Id>, clock: nat -> int, n: nat, fs: Facts<Id>, later: Store<Id>)
    requires EachCoherent(ss, fs) && SharedAll(ss, hs, clock, n).Some? && !EachTaken(ValuesOf(ss, hs))
    requires Later(SharedAll(ss, hs, clock, n).value.headers, later, fs)
    ensures var p := PrintAll(ValuesOf(ss, later)); p.Some? ==> FirstDiverge(SharedAll(ss, hs, clock, n).value.texts, p.value)
    decreases ss, 0
  {
    hide StreamShared, PrintMime, ValueOf, AllTaken, Later, Completes, Coherent, Diverge;
    var o := StreamShared(ss[0], hs, clock, n).value;
    AllLater(ss[1..], o.headers, clock, o.n, fs);
    LaterTwice(o.headers, SharedAll(ss, hs, clock, n).value.headers, later, fs);
    if AllTaken(ValueOf(ss[0], hs)) {
      TakenText(ss[0], hs, clock, n, fs, later);
      AllTakenKept(ss[1..], hs, o.headers, fs);
      OtherSharedTexts(ss[1..], o.headers, clock, o.n, fs, later);
    } else {
      OtherSharedText(ss[0], hs, clock, n, fs, later);
    }
  }

  // Parts in several places or not: with the boundaries added, a tree prints the text that was printed
  // exactly if the grammar takes every header that has got one to its end.
  lemma SharedExactly<Id>(s: Shape<Id>, hs: Store<Id>, clock: nat -> int, n: nat, fs: Facts<Id>)
    requires Coherent(s, fs) && StreamShared(s, hs, clock, n).Some?
    ensures var o := StreamShared(s, hs, clock, n).value;
            PrintMime(ValueOf(s, o.headers)) == Some(o.text) <==> AllTaken(ValueOf(s, hs))
  {
    hide StreamShared, PrintMime, ValueOf, AllTaken, Later, Coherent;
    var o := StreamShared(s, hs, clock, n).value;
    NoneLater(o.headers, fs);
    if AllTaken(ValueOf(s, hs)) { TakenText(s, hs, clock, n, fs, o.headers); } else { OtherSharedText(s, hs, clock, n, fs, o.headers); }
  }
}
