/** The positional inverted index of internal/fulltext and its phrase search, which must agree
    with reading the token lists of the documents. */
module FullText {

  type Term = string
  type DocID = string
  type Tokens = seq<Term>

  datatype Posting = Posting(docID: DocID, frequency: int, positions: seq<int>)

  datatype Document = Document(length: int, terms: set<Term>)

  type Index = map<Term, seq<Posting>>

  // -------------------------------------------------------------------- positions

  /** Where a term stands in a token list. */
  function Positions(tokens: Tokens, t: Term): seq<int> {
    if tokens == [] then []
    else
      var n := |tokens| - 1;
      Positions(tokens[..n], t) + (if tokens[n] == t then [n] else [])
  }

  /** They are the positions of the term, in ascending order. */
  lemma {:induction false} PositionsAre(tokens: Tokens, t: Term)
    ensures forall i :: i in Positions(tokens, t) <==> 0 <= i < |tokens| && tokens[i] == t
    ensures forall i, j :: 0 <= i < j < |Positions(tokens, t)| ==> Positions(tokens, t)[i] < Positions(tokens, t)[j]
    decreases |tokens|
  {
    if tokens != [] {
      var n := |tokens| - 1;
      var init := tokens[..n];
      PositionsAre(init, t);
      var r, r' := Positions(init, t), Positions(tokens, t);
      forall i | 0 <= i < |r| ensures r[i] < n { assert r[i] in r; }
      forall i ensures i in r' <==> 0 <= i < |tokens| && tokens[i] == t {
        assert i in r' <==> i in r || (tokens[n] == t && i == n);
        assert 0 <= i < n ==> init[i] == tokens[i];
      }
    }
  }

  lemma {:induction false} NoPositions(tokens: Tokens, t: Term)
    requires t !in tokens
    ensures Positions(tokens, t) == []
    decreases |tokens|
  {
    if tokens != [] { NoPositions(tokens[..|tokens| - 1], t); }
  }

  lemma PositionsNext(tokens: Tokens, t: Term, x: Term)
    ensures Positions(tokens + [x], t) == if x == t then Positions(tokens, t) + [|tokens|] else Positions(tokens, t)
  {
    assert (tokens + [x])[..|tokens|] == tokens;
  }

  // -------------------------------------------------------------------- the index

  /** The documents as token lists, less some terms that have been taken out of one of them. */
  datatype Library = Library(texts: map<DocID, Tokens>, doc: DocID, gone: set<Term>)

  ghost predicate Listed(l: Library, d: DocID, t: Term) {
    d in l.texts && t in l.texts[d] && !(d == l.doc && t in l.gone)
  }

  /** A posting holds exactly the positions of its term in its document. */
  ghost predicate PostingOk(l: Library, t: Term, p: Posting) {
    Listed(l, p.docID, t) && p.positions == Positions(l.texts[p.docID], t) && p.frequency == |p.positions|
  }

  /** One posting for each document that has the term. */
  ghost predicate ListOk(l: Library, t: Term, ps: seq<Posting>) {
    && (forall i {:trigger ps[i]} :: 0 <= i < |ps| ==> PostingOk(l, t, ps[i]))
    && (forall i, j :: 0 <= i < j < |ps| ==> ps[i].docID != ps[j].docID)
    && (forall d {:trigger Listed(l, d, t)} :: Listed(l, d, t) ==> Holds(ps, d))
  }

  ghost predicate Holds(ps: seq<Posting>, d: DocID) { exists i :: 0 <= i < |ps| && ps[i].docID == d }

  function Lookup(index: Index, t: Term): seq<Posting> { if t in index then index[t] else [] }

  ghost predicate IndexOk(l: Library, index: Index) {
    && (forall t :: t in index ==> index[t] != [])
    && (forall t {:trigger ListOk(l, t, Lookup(index, t))} :: ListOk(l, t, Lookup(index, t)))
  }

  /** The posting list after one more occurrence of its term. */
  method AddPosting(ps: seq<Posting>, docID: DocID, position: int) returns (r: seq<Posting>, ghost at: nat)
    ensures Occurrence(ps, docID, position, at, r)
  {
    for i := 0 to |ps|
      invariant forall j :: 0 <= j < i ==> ps[j].docID != docID
    {
      if ps[i].docID == docID {
        var p := ps[i];
        r, at := ps[i := p.(frequency := p.frequency + 1, positions := p.positions + [position])], i;
        return;
      }
    }
    r, at := ps + [Posting(docID, 1, [position])], |ps|;
  }

  /** The first posting of the document, at i, has grown; or a new one stands at the end. */
  ghost predicate Occurrence(ps: seq<Posting>, docID: DocID, position: int, i: nat, r: seq<Posting>) {
    && i <= |ps| && (forall j :: 0 <= j < i ==> ps[j].docID != docID)
    && if i < |ps| then
         ps[i].docID == docID &&
         r == ps[i := ps[i].(frequency := ps[i].frequency + 1, positions := ps[i].positions + [position])]
       else r == ps + [Posting(docID, 1, [position])]
  }

  ghost predicate Plain(l: Library) { l.gone == {} }

  function Extend(l: Library, docID: DocID, x: Term): Library
    requires docID in l.texts
  {
    l.(texts := l.texts[docID := l.texts[docID] + [x]])
  }

  lemma ExtendPosting(l: Library, docID: DocID, x: Term, t: Term, p: Posting)
    requires Plain(l) && docID in l.texts && PostingOk(l, t, p) && !(t == x && p.docID == docID)
    ensures PostingOk(Extend(l, docID, x), t, p)
  {
    PositionsNext(l.texts[docID], t, x);
  }

  /** Other terms' lists stay right. */
  lemma OtherTerm(l: Library, docID: DocID, x: Term, t: Term, ps: seq<Posting>)
    requires Plain(l) && docID in l.texts && ListOk(l, t, ps) && t != x
    ensures ListOk(Extend(l, docID, x), t, ps)
  {
    var l' := Extend(l, docID, x);
    forall i | 0 <= i < |ps| ensures PostingOk(l', t, ps[i]) { ExtendPosting(l, docID, x, t, ps[i]); }
    forall d | Listed(l', d, t) ensures Holds(ps, d) { assert Listed(l, d, t); }
  }

  lemma GrownPosting(l: Library, docID: DocID, x: Term, p: Posting)
    requires Plain(l) && docID in l.texts && PostingOk(l, x, p) && p.docID == docID
    ensures PostingOk(Extend(l, docID, x), x, p.(frequency := p.frequency + 1, positions := p.positions + [|l.texts[docID]|]))
  {
    PositionsNext(l.texts[docID], x, x);
  }

  lemma NewPosting(l: Library, docID: DocID, x: Term)
    requires Plain(l) && docID in l.texts && x !in l.texts[docID]
    ensures PostingOk(Extend(l, docID, x), x, Posting(docID, 1, [|l.texts[docID]|]))
  {
    PositionsNext(l.texts[docID], x, x);
    NoPositions(l.texts[docID], x);
  }

  /** The term's own list after the occurrence is added. */
  lemma SameTerm(l: Library, docID: DocID, x: Term, ps: seq<Posting>, at: nat, ps': seq<Posting>)
    requires Plain(l) && docID in l.texts && ListOk(l, x, ps) && Occurrence(ps, docID, |l.texts[docID]|, at, ps')
    ensures ListOk(Extend(l, docID, x), x, ps')
  {
    var l' := Extend(l, docID, x);
    if at == |ps| {
      assert !Holds(ps, docID);
      assert !Listed(l, docID, x);
      NewPosting(l, docID, x);
    } else {
      GrownPosting(l, docID, x, ps[at]);
    }
    forall i | 0 <= i < |ps'| ensures PostingOk(l', x, ps'[i]) {
      if i < |ps| && i != at { ExtendPosting(l, docID, x, x, ps[i]); }
    }
    forall d | Listed(l', d, x) ensures Holds(ps', d) {
      if d == docID {
        assert ps'[at].docID == docID;
      } else {
        assert Listed(l, d, x);
        var i :| 0 <= i < |ps| && ps[i].docID == d;
        assert ps'[i].docID == d;
      }
    }
  }

  lemma TermAdded(l: Library, index: Index, docID: DocID, x: Term, at: nat, ps': seq<Posting>)
    requires Plain(l) && docID in l.texts && IndexOk(l, index)
    requires Occurrence(Lookup(index, x), docID, |l.texts[docID]|, at, ps')
    ensures IndexOk(Extend(l, docID, x), index[x := ps'])
  {
    var l', index' := Extend(l, docID, x), index[x := ps'];
    forall t ensures ListOk(l', t, Lookup(index', t)) {
      assert ListOk(l, t, Lookup(index, t));
      if t == x { SameTerm(l, docID, x, Lookup(index, x), at, ps'); } else { OtherTerm(l, docID, x, t, Lookup(index, t)); }
    }
  }

  // ---------------------------------------------------------------------- removal

  function Strike(l: Library, docID: DocID, t: Term): Library { Library(l.texts, docID, l.gone + {t}) }

  /** The postings of other documents, in order. */
  function Others(ps: seq<Posting>, docID: DocID): seq<Posting> {
    if ps == [] then []
    else Others(ps[..|ps| - 1], docID) + (if ps[|ps| - 1].docID != docID then [ps[|ps| - 1]] else [])
  }

  method DropPosting(ps: seq<Posting>, docID: DocID) returns (r: seq<Posting>)
    ensures r == Others(ps, docID)
  {
    r := [];
    for i := 0 to |ps|
      invariant r == Others(ps[..i], docID)
    {
      assert ps[..i + 1][..i] == ps[..i];
      if ps[i].docID != docID { r := r + [ps[i]]; }
    }
    assert ps[..|ps|] == ps;
  }

  lemma {:induction false} OthersAre(ps: seq<Posting>, docID: DocID)
    requires forall i, j :: 0 <= i < j < |ps| ==> ps[i].docID != ps[j].docID
    ensures var r := Others(ps, docID);
      && (forall p :: p in r <==> p in ps && p.docID != docID)
      && (forall i, j :: 0 <= i < j < |r| ==> r[i].docID != r[j].docID)
    decreases |ps|
  {
    if ps != [] {
      var init, last := ps[..|ps| - 1], ps[|ps| - 1];
      OthersAre(init, docID);
      var r, r' := Others(init, docID), Others(ps, docID);
      forall p ensures p in r' <==> p in ps && p.docID != docID {
        assert p in ps <==> p in init || p == last;
        assert p in r' <==> p in r || (last.docID != docID && p == last);
      }
      forall i | 0 <= i < |r| ensures r[i].docID != last.docID {
        assert r[i] in r && r[i] in init;
        var j :| 0 <= j < |init| && init[j] == r[i];
      }
    }
  }

  lemma StruckTerm(l: Library, docID: DocID, t: Term, ps: seq<Posting>)
    requires (l.gone == {} || l.doc == docID) && ListOk(l, t, ps)
    ensures ListOk(Strike(l, docID, t), t, Others(ps, docID))
  {
    var l', r := Strike(l, docID, t), Others(ps, docID);
    OthersAre(ps, docID);
    forall i | 0 <= i < |r| ensures PostingOk(l', t, r[i]) {
      assert r[i] in r && r[i] in ps;
      var j :| 0 <= j < |ps| && ps[j] == r[i];
    }
    forall d | Listed(l', d, t) ensures Holds(r, d) {
      assert Listed(l, d, t);
      var j :| 0 <= j < |ps| && ps[j].docID == d;
      assert ps[j] in r;
    }
  }

  lemma UnstruckTerm(l: Library, docID: DocID, x: Term, t: Term, ps: seq<Posting>)
    requires (l.gone == {} || l.doc == docID) && ListOk(l, t, ps) && t != x
    ensures ListOk(Strike(l, docID, x), t, ps)
  {
    var l' := Strike(l, docID, x);
    forall i | 0 <= i < |ps| ensures PostingOk(l', t, ps[i]) { assert PostingOk(l, t, ps[i]); }
    forall d | Listed(l', d, t) ensures Holds(ps, d) { assert Listed(l, d, t); }
  }

  /** One term of a document taken out of the index. */
  method RemoveTerm(index: Index, docID: DocID, t: Term, ghost l: Library) returns (index': Index)
    requires IndexOk(l, index) && (l.gone == {} || l.doc == docID)
    ensures IndexOk(Strike(l, docID, t), index')
  {
    index' := index;
    if t in index {
      var rest := DropPosting(index[t], docID);
      if |rest| == 0 { index' := index - {t}; } else { index' := index[t := rest]; }
    }
    forall x ensures ListOk(Strike(l, docID, t), x, Lookup(index', x)) {
      assert ListOk(l, x, Lookup(index, x));
      if x == t { StruckTerm(l, docID, t, Lookup(index, t)); } else { UnstruckTerm(l, docID, t, x, Lookup(index, x)); }
    }
  }

  // ----------------------------------------------------------------- phrase matching

  /** The phrase stands in the text, word after word. */
  ghost predicate StandsAt(text: Tokens, phrase: Tokens, s: int) {
    0 <= s && s + |phrase| <= |text| && text[s..s + |phrase|] == phrase
  }

  ghost predicate Contains(text: Tokens, phrase: Tokens) { exists s :: StandsAt(text, phrase, s) }

  /** From a start in the first list, every later list has the next position. */
  ghost predicate LinesUp(lists: seq<seq<int>>, s: int) {
    forall i {:trigger lists[i]} :: 0 <= i < |lists| ==> s + i in lists[i]
  }

  method CheckPhraseMatch(lists: seq<seq<int>>) returns (b: bool)
    ensures b <==> |lists| >= 2 && exists s :: LinesUp(lists, s)
  {
    if |lists| < 2 { return false; }
    for k := 0 to |lists[0]|
      invariant forall m :: 0 <= m < k ==> !LinesUp(lists, lists[0][m])
    {
      var matched := MatchesFrom(lists, lists[0][k]);
      if matched { return true; }
    }
    forall s ensures !LinesUp(lists, s) {
      assert s + 0 in lists[0] ==> exists m :: 0 <= m < |lists[0]| && lists[0][m] == s;
    }
    return false;
  }

  method MatchesFrom(lists: seq<seq<int>>, startPos: int) returns (matched: bool)
    requires |lists| >= 2 && startPos in lists[0]
    ensures matched <==> LinesUp(lists, startPos)
  {
    for i := 1 to |lists|
      invariant forall j {:trigger lists[j]} :: 0 <= j < i ==> startPos + j in lists[j]
    {
      var found := Find(lists[i], startPos + i);
      if !found { return false; }
    }
    return true;
  }

  method Find(positions: seq<int>, expected: int) returns (found: bool)
    ensures found <==> expected in positions
  {
    for k := 0 to |positions|
      invariant expected !in positions[..k]
    {
      if positions[k] == expected { return true; }
      assert positions[..k + 1] == positions[..k] + [positions[k]];
    }
    assert positions[..|positions|] == positions;
    return false;
  }

  ghost predicate PositionLists(text: Tokens, terms: Tokens, lists: seq<seq<int>>) {
    |lists| == |terms| && forall i {:trigger lists[i]} :: 0 <= i < |terms| ==> lists[i] == Positions(text, terms[i])
  }

  /** Lining up positions is standing in the text. */
  lemma LinesUpIsPhrase(text: Tokens, terms: Tokens, lists: seq<seq<int>>, s: int)
    requires PositionLists(text, terms, lists) && terms != []
    ensures LinesUp(lists, s) <==> StandsAt(text, terms, s)
  {
    forall i | 0 <= i < |terms| ensures s + i in lists[i] <==> 0 <= s + i < |text| && text[s + i] == terms[i] {
      PositionsAre(text, terms[i]);
    }
    if LinesUp(lists, s) {
      assert s + 0 in lists[0] && s + (|terms| - 1) in lists[|terms| - 1];
      assert forall i :: 0 <= i < |terms| ==> s + i in lists[i] && text[s..s + |terms|][i] == terms[i];
    }
    if StandsAt(text, terms, s) {
      forall i | 0 <= i < |lists| ensures s + i in lists[i] {
        assert text[s..s + |terms|][i] == text[s + i];
      }
    }
  }

  lemma PhraseFound(text: Tokens, terms: Tokens, lists: seq<seq<int>>)
    requires PositionLists(text, terms, lists) && terms != []
    ensures (exists s :: LinesUp(lists, s)) <==> Contains(text, terms)
  {
    if s :| LinesUp(lists, s) { LinesUpIsPhrase(text, terms, lists, s); }
    if s :| StandsAt(text, terms, s) { LinesUpIsPhrase(text, terms, lists, s); }
  }

  // ------------------------------------------------------------------- candidates

  type Candidates = map<DocID, seq<seq<int>>>

  ghost predicate HasAll(l: Library, d: DocID, terms: Tokens) { forall i :: 0 <= i < |terms| ==> Listed(l, d, terms[i]) }

  /** The documents that have all the terms, each with the terms' positions. */
  ghost predicate CandidatesOk(l: Library, terms: Tokens, c: Candidates) {
    && (forall d {:trigger d in c} {:trigger HasAll(l, d, terms)} :: d in c <==> HasAll(l, d, terms))
    && (forall d :: d in c && d in l.texts ==> PositionLists(l.texts[d], terms, c[d]))
  }

  /** The candidates that a further term's postings leave. */
  method Narrow(ps: seq<Posting>, c: Candidates) returns (next: Candidates)
    requires forall i, j :: 0 <= i < j < |ps| ==> ps[i].docID != ps[j].docID
    ensures forall d :: d in next <==> d in c && Holds(ps, d)
    ensures forall i :: 0 <= i < |ps| && ps[i].docID in c ==>
              ps[i].docID in next && next[ps[i].docID] == c[ps[i].docID] + [ps[i].positions]
  {
    next := map[];
    for i := 0 to |ps|
      invariant forall d :: d in next <==> d in c && Holds(ps[..i], d)
      invariant forall j :: 0 <= j < i && ps[j].docID in c ==>
                  ps[j].docID in next && next[ps[j].docID] == c[ps[j].docID] + [ps[j].positions]
    {
      var was := next;
      if ps[i].docID in c { next := next[ps[i].docID := c[ps[i].docID] + [ps[i].positions]]; }
      HoldsNext(ps, i);
    }
    assert ps[..|ps|] == ps;
  }

  lemma HoldsNext(ps: seq<Posting>, i: int)
    requires 0 <= i < |ps|
    ensures forall d :: Holds(ps[..i + 1], d) <==> Holds(ps[..i], d) || d == ps[i].docID
  {
    var a, b := ps[..i], ps[..i + 1];
    forall d ensures Holds(b, d) <==> Holds(a, d) || d == ps[i].docID {
      if Holds(a, d) { var j :| 0 <= j < |a| && a[j].docID == d; assert b[j].docID == d; }
      if d == ps[i].docID { assert b[i].docID == d; }
      if Holds(b, d) && d != ps[i].docID { var j :| 0 <= j < |b| && b[j].docID == d; assert a[j].docID == d; }
    }
  }

  lemma NarrowedOk(l: Library, terms: Tokens, k: int, ps: seq<Posting>, c: Candidates, next: Candidates)
    requires 0 <= k < |terms| && CandidatesOk(l, terms[..k], c) && ListOk(l, terms[k], ps)
    requires forall d :: d in next <==> d in c && Holds(ps, d)
    requires forall i :: 0 <= i < |ps| && ps[i].docID in c ==>
               ps[i].docID in next && next[ps[i].docID] == c[ps[i].docID] + [ps[i].positions]
    ensures CandidatesOk(l, terms[..k + 1], next)
  {
    var a, b := terms[..k], terms[..k + 1];
    assert b == a + [terms[k]];
    forall d ensures d in next <==> HasAll(l, d, b) {
      HasAllNext(l, d, a, terms[k]);
      if Holds(ps, d) { var i :| 0 <= i < |ps| && ps[i].docID == d; assert PostingOk(l, terms[k], ps[i]); }
    }
    forall d | d in next ensures PositionLists(l.texts[d], b, next[d]) {
      var i :| 0 <= i < |ps| && ps[i].docID == d;
      assert PostingOk(l, terms[k], ps[i]);
    }
  }

  lemma HasAllNext(l: Library, d: DocID, terms: Tokens, t: Term)
    ensures HasAll(l, d, terms + [t]) <==> HasAll(l, d, terms) && Listed(l, d, t)
  {
    var all := terms + [t];
    if HasAll(l, d, all) {
      assert all[|terms|] == t;
      forall i | 0 <= i < |terms| ensures Listed(l, d, terms[i]) { assert all[i] == terms[i]; }
    }
  }

  // ---------------------------------------------------------------------- the engine

  datatype Error = NoError | EmptyDocID | EmptyDocument | DuplicateDocID | DocNotFound | EmptyPhrase | PhraseTooShort

  datatype Hits = Hits(docs: set<DocID>) | Failed(error: Error)

  /** unicode.IsSpace. */
  predicate IsSpace(c: char) {
    var n := c as int;
    9 <= n <= 13 || 0x2000 <= n <= 0x200A || n in [0x20, 0x85, 0xA0, 0x1680, 0x2028, 0x2029, 0x202F, 0x205F, 0x3000]
  }

  /** strings.TrimSpace leaves nothing. */
  predicate Blank(s: string) { forall i :: 0 <= i < |s| ==> IsSpace(s[i]) }

  ghost function TermsOf(tokens: Tokens): set<Term> { set i | 0 <= i < |tokens| :: tokens[i] }

  ghost function Whole(texts: map<DocID, Tokens>): Library { Library(texts, "", {}) }

  class Engine {
    var docs: map<DocID, Document>
    var index: Index
    const tokenize: string -> Tokens
    ghost var texts: map<DocID, Tokens>

    ghost predicate Valid()
      reads this
    {
      && docs.Keys == texts.Keys && IndexOk(Whole(texts), index)
      && (forall d :: d in docs ==> docs[d] == Document(|texts[d]|, TermsOf(texts[d])))
    }

    constructor (tokenize: string -> Tokens)
      ensures Valid() && texts == map[] && this.tokenize == tokenize
    {
      this.tokenize := tokenize;
      docs, index, texts := map[], map[], map[];
    }

    method AddDocument(docID: DocID, content: string) returns (err: Error)
      requires Valid()
      modifies this
      ensures Valid()
      ensures err == (if Blank(docID) then EmptyDocID
                      else if Blank(content) || tokenize(content) == [] then EmptyDocument
                      else if docID in old(texts) then DuplicateDocID else NoError)
      ensures texts == if err == NoError then old(texts)[docID := tokenize(content)] else old(texts)
    {
      if Blank(docID) { return EmptyDocID; }
      if Blank(content) { return EmptyDocument; }
      var tokens := tokenize(content);
      if |tokens| == 0 { return EmptyDocument; }
      var terms := Distinct(tokens);
      if docID in docs { return DuplicateDocID; }
      index := AddTerms(index, docID, tokens, texts);
      docs := docs[docID := Document(|tokens|, terms)];
      texts := texts[docID := tokens];
      return NoError;
    }

    method DeleteDocument(docID: DocID) returns (err: Error)
      requires Valid()
      modifies this
      ensures Valid()
      ensures err == if Blank(docID) then EmptyDocID else if docID !in old(texts) then DocNotFound else NoError
      ensures texts == if err == NoError then old(texts) - {docID} else old(texts)
    {
      if Blank(docID) { return EmptyDocID; }
      if docID !in docs { return DocNotFound; }
      index := RemoveTerms(index, docID, docs[docID].terms, texts);
      docs, texts := docs - {docID}, texts - {docID};
      return NoError;
    }

    /** Exactly the documents whose token list contains the phrase. */
    method SearchPhrase(phrase: string) returns (r: Hits)
      requires Valid()
      ensures Blank(phrase) ==> r == Failed(EmptyPhrase)
      ensures !Blank(phrase) && |tokenize(phrase)| < 2 ==> r == Failed(PhraseTooShort)
      ensures !Blank(phrase) && |tokenize(phrase)| >= 2 ==>
        r.Hits? && forall d :: d in r.docs <==> d in texts && Contains(texts[d], tokenize(phrase))
    {
      if Blank(phrase) { return Failed(EmptyPhrase); }
      var terms := tokenize(phrase);
      if |terms| < 2 { return Failed(PhraseTooShort); }
      if |docs| == 0 { return Hits({}); }
      var candidates := Gather(index, terms, Whole(texts));
      var matched := MatchAll(candidates, terms, Whole(texts));
      ghost var l := Whole(texts);
      forall d ensures d in matched <==> d in texts && Contains(texts[d], terms) {
        if d in texts && Contains(texts[d], terms) { ContainsHasAll(l, d, terms); }
      }
      r := Hits(matched);
    }
  }

  method Distinct(tokens: Tokens) returns (terms: set<Term>)
    ensures terms == TermsOf(tokens)
  {
    terms := {};
    for i := 0 to |tokens|
      invariant terms == TermsOf(tokens[..i])
    {
      var a, b := tokens[..i], tokens[..i + 1];
      assert forall j :: 0 <= j < i ==> a[j] == b[j];
      assert b[i] == tokens[i];
      assert TermsOf(b) == TermsOf(a) + {tokens[i]} by {
        forall t | t in TermsOf(a) ensures t in TermsOf(b) { var j :| 0 <= j < |a| && a[j] == t; assert b[j] == t; }
      }
      terms := terms + {tokens[i]};
    }
    assert tokens[..|tokens|] == tokens;
  }

  /** The loop of AddTerm calls. */
  method AddTerms(index0: Index, docID: DocID, tokens: Tokens, ghost texts: map<DocID, Tokens>) returns (index: Index)
    requires IndexOk(Whole(texts), index0) && docID !in texts
    ensures IndexOk(Whole(texts[docID := tokens]), index)
  {
    hide IndexOk, Occurrence;
    index := index0;
    EmptyText(texts, docID, index);
    assert tokens[..0] == [];
    for pos := 0 to |tokens|
      invariant IndexOk(Whole(texts[docID := tokens[..pos]]), index)
    {
      var term := tokens[pos];
      var ps, at := AddPosting(Lookup(index, term), docID, pos);
      TermAdded(Whole(texts[docID := tokens[..pos]]), index, docID, term, at, ps);
      index := index[term := ps];
      assert tokens[..pos] + [term] == tokens[..pos + 1];
      assert texts[docID := tokens[..pos]][docID := tokens[..pos + 1]] == texts[docID := tokens[..pos + 1]];
    }
    assert tokens[..|tokens|] == tokens;
  }

  lemma EmptyText(texts: map<DocID, Tokens>, docID: DocID, index: Index)
    requires IndexOk(Whole(texts), index) && docID !in texts
    ensures IndexOk(Whole(texts[docID := []]), index)
  {
    var l, l' := Whole(texts), Whole(texts[docID := []]);
    forall t ensures ListOk(l', t, Lookup(index, t)) {
      assert ListOk(l, t, Lookup(index, t));
      var ps := Lookup(index, t);
      forall i | 0 <= i < |ps| ensures PostingOk(l', t, ps[i]) { assert PostingOk(l, t, ps[i]); }
      forall d | Listed(l', d, t) ensures Holds(ps, d) { assert Listed(l, d, t); }
    }
  }

  /** RemoveDocument: every term of the document, in whatever order. */
  method RemoveTerms(index0: Index, docID: DocID, terms: set<Term>, ghost texts: map<DocID, Tokens>) returns (index: Index)
    requires IndexOk(Whole(texts), index0) && docID in texts && terms == TermsOf(texts[docID])
    ensures IndexOk(Whole(texts - {docID}), index)
  {
    hide IndexOk;
    index := index0;
    var rest := terms;
    ghost var l := Library(texts, docID, {});
    SameIndex(Whole(texts), l, index);
    while rest != {}
      invariant l.texts == texts && l.doc == docID && l.gone + rest == terms && IndexOk(l, index)
    {
      var t :| t in rest;
      index := RemoveTerm(index, docID, t, l);
      l, rest := Strike(l, docID, t), rest - {t};
    }
    SameIndex(l, Whole(texts - {docID}), index);
  }

  /** Only what is listed matters to the index. */
  lemma SameIndex(l: Library, l': Library, index: Index)
    requires IndexOk(l, index)
    requires forall d, t :: Listed(l, d, t) <==> Listed(l', d, t)
    requires forall d :: d in l'.texts && d in l.texts ==> l'.texts[d] == l.texts[d]
    ensures IndexOk(l', index)
  {
    forall t ensures ListOk(l', t, Lookup(index, t)) {
      assert ListOk(l, t, Lookup(index, t));
      var ps := Lookup(index, t);
      forall i | 0 <= i < |ps| ensures PostingOk(l', t, ps[i]) { assert PostingOk(l, t, ps[i]) && Listed(l', ps[i].docID, t); }
      forall d | Listed(l', d, t) ensures Holds(ps, d) { assert Listed(l, d, t); }
    }
  }

  /** The candidate documents of a phrase. */
  method Gather(index: Index, terms: Tokens, ghost l: Library) returns (c: Candidates)
    requires IndexOk(l, index) && |terms| >= 2
    ensures CandidatesOk(l, terms, c)
  {
    hide CandidatesOk, PostingOk, Listed, Holds;
    for k := 0 to |terms|
      invariant forall j :: 0 <= j < k ==> terms[j] in index
    {
      if terms[k] !in index {
        MissingTerm(l, index, terms, k);
        return map[];
      }
    }
    assert ListOk(l, terms[0], Lookup(index, terms[0]));
    c := First(index[terms[0]], terms[0], l);
    assert terms[..1] == [terms[0]];
    for k := 1 to |terms|
      invariant CandidatesOk(l, terms[..k], c)
    {
      var ps := index[terms[k]];
      assert ListOk(l, terms[k], Lookup(index, terms[k]));
      var next := Narrow(ps, c);
      NarrowedOk(l, terms, k, ps, c, next);
      c := next;
      if |c| == 0 {
        NoCandidates(l, terms, k + 1);
        return map[];
      }
    }
    assert terms[..|terms|] == terms;
  }

  lemma MissingTerm(l: Library, index: Index, terms: Tokens, k: int)
    requires IndexOk(l, index) && 0 <= k < |terms| && terms[k] !in index
    ensures CandidatesOk(l, terms, map[])
  {
    forall d ensures !HasAll(l, d, terms) {
      assert ListOk(l, terms[k], Lookup(index, terms[k]));
      assert Listed(l, d, terms[k]) ==> Holds([], d);
    }
  }

  lemma NoCandidates(l: Library, terms: Tokens, k: int)
    requires 0 <= k <= |terms| && CandidatesOk(l, terms[..k], map[])
    ensures CandidatesOk(l, terms, map[])
  {
    forall d ensures !HasAll(l, d, terms) {
      assert !HasAll(l, d, terms[..k]);
      var i :| 0 <= i < k && !Listed(l, d, terms[..k][i]);
      assert terms[..k][i] == terms[i];
    }
  }

  method First(ps: seq<Posting>, t: Term, ghost l: Library) returns (c: Candidates)
    requires ListOk(l, t, ps)
    ensures CandidatesOk(l, [t], c)
  {
    c := map[];
    for i := 0 to |ps|
      invariant forall d :: d in c <==> Holds(ps[..i], d)
      invariant forall j :: 0 <= j < i ==> ps[j].docID in c && c[ps[j].docID] == [ps[j].positions]
    {
      HoldsNext(ps, i);
      c := c[ps[i].docID := [ps[i].positions]];
    }
    assert ps[..|ps|] == ps;
    FirstOk(l, t, ps, c);
  }

  lemma FirstOk(l: Library, t: Term, ps: seq<Posting>, c: Candidates)
    requires ListOk(l, t, ps) && forall d :: d in c <==> Holds(ps, d)
    requires forall j :: 0 <= j < |ps| ==> ps[j].docID in c && c[ps[j].docID] == [ps[j].positions]
    ensures CandidatesOk(l, [t], c)
  {
    forall d ensures d in c <==> HasAll(l, d, [t]) {
      if Holds(ps, d) { var i :| 0 <= i < |ps| && ps[i].docID == d; assert PostingOk(l, t, ps[i]); }
      if HasAll(l, d, [t]) { assert Listed(l, d, [t][0]); }
    }
    forall d | d in c && d in l.texts ensures PositionLists(l.texts[d], [t], c[d]) {
      var i :| 0 <= i < |ps| && ps[i].docID == d;
      assert PostingOk(l, t, ps[i]);
    }
  }

  method MatchAll(c: Candidates, terms: Tokens, ghost l: Library) returns (matched: set<DocID>)
    requires CandidatesOk(l, terms, c) && |terms| >= 2
    ensures forall d :: d in matched <==> HasAll(l, d, terms) && d in l.texts && Contains(l.texts[d], terms)
  {
    matched := {};
    var rest := c.Keys;
    while rest != {}
      invariant rest <= c.Keys
      invariant forall d :: d in matched <==> d in c.Keys - rest && d in l.texts && Contains(l.texts[d], terms)
    {
      var d :| d in rest;
      assert HasAll(l, d, terms) && Listed(l, d, terms[0]);
      rest := rest - {d};
      if |c[d]| == |terms| {
        var ok := CheckPhraseMatch(c[d]);
        PhraseFound(l.texts[d], terms, c[d]);
        if ok { matched := matched + {d}; }
      }
    }
  }

  lemma ContainsHasAll(l: Library, d: DocID, terms: Tokens)
    requires d in l.texts && Contains(l.texts[d], terms) && l.gone == {}
    ensures HasAll(l, d, terms)
  {
    var s :| StandsAt(l.texts[d], terms, s);
    forall i | 0 <= i < |terms| ensures Listed(l, d, terms[i]) {
      assert l.texts[d][s..s + |terms|][i] == l.texts[d][s + i];
    }
  }
}
