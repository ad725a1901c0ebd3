/** A program's imports and body, and that they are its text. */
module ProgramText {
  import opened Wrappers
  import opened NexAst

  function ImportNames(statements: seq<Stmt>): seq<string> {
    if statements == [] then []
    else
      var last := statements[|statements| - 1];
      ImportNames(statements[..|statements| - 1]) + if last.Use? then [last.path] else []
  }

  function Body(statements: seq<Stmt>): seq<Stmt> {
    if statements == [] then []
    else
      var last := statements[|statements| - 1];
      Body(statements[..|statements| - 1]) + if last.Use? then [] else [last]
  }

  ghost predicate Increasing(index: seq<nat>, bound: nat) {
    && (forall i :: 0 <= i < |index| ==> index[i] < bound)
    && (forall i, j :: 0 <= i < j < |index| ==> index[i] < index[j])
  }

  /** The statements at these indices, which are all that import nothing. */
  ghost predicate BodyAt(body: seq<Stmt>, statements: seq<Stmt>, index: seq<nat>) {
    && |index| == |body| && Increasing(index, |statements|)
    && (forall i :: 0 <= i < |body| ==> body[i] == statements[index[i]] && !body[i].Use?)
    && (forall j :: 0 <= j < |statements| && !statements[j].Use? ==> j in index)
  }

  /** The paths of the imports at these indices, which are all imports. */
  ghost predicate NamesAt(names: seq<string>, statements: seq<Stmt>, index: seq<nat>) {
    && |index| == |names| && Increasing(index, |statements|)
    && (forall i :: 0 <= i < |names| ==> statements[index[i]] == Use(names[i]))
    && (forall j :: 0 <= j < |statements| && statements[j].Use? ==> j in index)
  }

  /** The body is the text without its imports, and the names are those of its imports, both in text order. */
  ghost predicate IsText(names: seq<string>, body: seq<Stmt>, statements: seq<Stmt>) {
    && (exists index :: NamesAt(names, statements, index))
    && (exists index :: BodyAt(body, statements, index))
  }

  lemma {:induction false} BodyIsText(statements: seq<Stmt>) returns (index: seq<nat>)
    ensures BodyAt(Body(statements), statements, index)
  {
    if statements == [] {
      index := [];
    } else {
      var n := |statements| - 1;
      var before := BodyIsText(statements[..n]);
      index := if statements[n].Use? then before else before + [n];
      BodyAtSnoc(Body(statements[..n]), statements, before);
    }
  }

  lemma BodyAtSnoc(body: seq<Stmt>, statements: seq<Stmt>, index: seq<nat>)
    requires statements != [] && BodyAt(body, statements[..|statements| - 1], index)
    ensures var n := |statements| - 1;
      if statements[n].Use? then BodyAt(body, statements, index) else BodyAt(body + [statements[n]], statements, index + [n])
  {
    var n := |statements| - 1;
    if !statements[n].Use? {
      forall j | 0 <= j < |statements| && !statements[j].Use?
        ensures j in index + [n]
      {
        assert j < n ==> statements[..n][j] == statements[j];
      }
    }
  }

  lemma {:induction false} NamesAreText(statements: seq<Stmt>) returns (index: seq<nat>)
    ensures NamesAt(ImportNames(statements), statements, index)
  {
    if statements == [] {
      index := [];
    } else {
      var n := |statements| - 1;
      var before := NamesAreText(statements[..n]);
      index := if statements[n].Use? then before + [n] else before;
      NamesAtSnoc(ImportNames(statements[..n]), statements, before);
    }
  }

  lemma NamesAtSnoc(names: seq<string>, statements: seq<Stmt>, index: seq<nat>)
    requires statements != [] && NamesAt(names, statements[..|statements| - 1], index)
    ensures var n := |statements| - 1;
      if statements[n].Use? then NamesAt(names + [statements[n].path], statements, index + [n]) else NamesAt(names, statements, index)
  {
    var n := |statements| - 1;
    if statements[n].Use? {
      forall j | 0 <= j < |statements| && statements[j].Use?
        ensures j in index + [n]
      {
        assert j < n ==> statements[..n][j] == statements[j];
      }
    }
  }

  lemma ProgramIsText(statements: seq<Stmt>)
    ensures IsText(ImportNames(statements), Body(statements), statements)
  {
    var names := NamesAreText(statements);
    var body := BodyIsText(statements);
  }

  // ----- several texts one after the other -----

  /** A place in a list of texts. */
  datatype Place = Place(text: nat, statement: nat)

  ghost predicate Before(a: Place, b: Place) {
    a.text < b.text || (a.text == b.text && a.statement < b.statement)
  }

  ghost predicate BodyPlace(texts: seq<seq<Stmt>>, p: Place) {
    p.text < |texts| && p.statement < |texts[p.text]| && !texts[p.text][p.statement].Use?
  }

  /** The statements at these places, which are all places of the texts that import nothing, in order. */
  ghost predicate SpliceAt(result: seq<Stmt>, texts: seq<seq<Stmt>>, places: seq<Place>) {
    && |places| == |result|
    && (forall i :: 0 <= i < |result| ==> BodyPlace(texts, places[i]) && result[i] == texts[places[i].text][places[i].statement])
    && (forall i, j :: 0 <= i < j < |places| ==> Before(places[i], places[j]))
    && (forall p :: BodyPlace(texts, p) ==> p in places)
  }

  /** The texts one after the other, without their imports. */
  ghost predicate IsSplice(result: seq<Stmt>, texts: seq<seq<Stmt>>) {
    exists places :: SpliceAt(result, texts, places)
  }

  lemma NothingSpliced()
    ensures IsSplice([], [])
  {
    assert SpliceAt([], [], []);
  }

  function PlacesIn(text: nat, index: seq<nat>): (places: seq<Place>)
    ensures |places| == |index| && forall i :: 0 <= i < |index| ==> places[i] == Place(text, index[i])
  {
    seq(|index|, i requires 0 <= i < |index| => Place(text, index[i]))
  }

  lemma SpliceSnoc(result: seq<Stmt>, texts: seq<seq<Stmt>>, statements: seq<Stmt>)
    requires IsSplice(result, texts)
    ensures IsSplice(result + Body(statements), texts + [statements])
  {
    var places :| SpliceAt(result, texts, places);
    var index := BodyIsText(statements);
    var body, all := Body(statements), texts + [statements];
    var more := PlacesIn(|texts|, index);
    forall p | BodyPlace(all, p)
      ensures p in places + more
    {
      if p.text == |texts| {
        var i :| 0 <= i < |index| && index[i] == p.statement;
        assert more[i] == p;
      } else {
        assert BodyPlace(texts, p);
      }
    }
    SplicePlaces(result, texts, places, body, statements, index);
    assert SpliceAt(result + body, all, places + more);
  }

  lemma SplicePlaces(result: seq<Stmt>, texts: seq<seq<Stmt>>, places: seq<Place>, body: seq<Stmt>, statements: seq<Stmt>, index: seq<nat>)
    requires SpliceAt(result, texts, places) && BodyAt(body, statements, index)
    ensures var all, ps, r := texts + [statements], places + PlacesIn(|texts|, index), result + body;
      && (forall i :: 0 <= i < |r| ==> BodyPlace(all, ps[i]) && r[i] == all[ps[i].text][ps[i].statement])
      && (forall i, j :: 0 <= i < j < |ps| ==> Before(ps[i], ps[j]))
  {
    var all, ps, r := texts + [statements], places + PlacesIn(|texts|, index), result + body;
    forall i | 0 <= i < |r|
      ensures BodyPlace(all, ps[i]) && r[i] == all[ps[i].text][ps[i].statement]
    {
      if i < |result| {
        assert BodyPlace(texts, places[i]);
      }
    }
    forall i, j | 0 <= i < j < |ps|
      ensures Before(ps[i], ps[j])
    {
      if i < |places| {
        assert BodyPlace(texts, places[i]);
      }
    }
  }
}
