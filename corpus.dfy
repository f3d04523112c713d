/** `tokenize_fanfics` and `tokenize_webnovels` of backend/scratch.py: they
    tokenize every record's description and, on the way, assign each record
    its position as internal index, recording the correspondence in four
    module-level dictionaries (backend/scratch.py:26-29), here the fields
    of one `IdMaps` object. */
module Corpus {
  import opened Tokenizer

  /** The fields of a fanfiction record that the core reads. */
  datatype Fanfic = Fanfic(id: int, description: string)

  /** The fields of a web-novel record that the core reads. */
  datatype Webnovel = Webnovel(titles: seq<string>, description: string)

  datatype TokenizedFanfic = TokenizedFanfic(id: int, tokenizedDescription: seq<string>)

  datatype TokenizedWebnovel = TokenizedWebnovel(index: nat, tokenizedDescription: seq<string>)

  /** Position `i` mapped to the `i`-th key. */
  function Positions<K>(keys: seq<K>): (m: map<nat, K>)
    ensures forall i: nat :: i in m <==> i < |keys|
  {
    map i: nat | i < |keys| :: keys[i]
  }

  /** Each key mapped to a position: the one written last when the keys are
      stored in order, each overwriting an earlier entry for the same key. */
  function LastPositions<K>(keys: seq<K>): map<K, nat>
  {
    if keys == [] then map[]
    else
      var n := |keys| - 1;
      LastPositions(keys[..n])[keys[n] := n]
  }

  lemma PositionsSnoc<K>(keys: seq<K>, k: nat)
    requires k < |keys|
    ensures Positions(keys[..k + 1]) == Positions(keys[..k])[k := keys[k]]
  {
  }

  lemma LastPositionsSnoc<K>(keys: seq<K>, k: nat)
    requires k < |keys|
    ensures LastPositions(keys[..k + 1]) == LastPositions(keys[..k])[keys[k] := k]
  {
    assert keys[..k + 1][..k] == keys[..k];
  }

  /** Storing one more entry on top of a merge stores it in the merged part. */
  lemma UpdateMerged<K, V>(base: map<K, V>, m: map<K, V>, k: K, v: V)
    ensures (base + m)[k := v] == base + m[k := v]
  {
  }

  function FicIds(fanfics: seq<Fanfic>): seq<int>
  {
    seq(|fanfics|, i requires 0 <= i < |fanfics| => fanfics[i].id)
  }

  /** The first title of each web novel. */
  function FirstTitles(webnovels: seq<Webnovel>): seq<string>
    requires forall i :: 0 <= i < |webnovels| ==> webnovels[i].titles != []
  {
    seq(|webnovels|, i requires 0 <= i < |webnovels| => webnovels[i].titles[0])
  }

  class IdMaps {
    var ficIdToIndex: map<int, nat>
    var indexToFicId: map<nat, int>
    var webnovelTitleToIndex: map<string, nat>
    var indexToWebnovelTitle: map<nat, string>

    constructor()
      ensures ficIdToIndex == map[] && indexToFicId == map[]
      ensures webnovelTitleToIndex == map[] && indexToWebnovelTitle == map[]
    {
      ficIdToIndex := map[];
      indexToFicId := map[];
      webnovelTitleToIndex := map[];
      indexToWebnovelTitle := map[];
    }

    /** One `{id, tokenized_description}` per record, in order; record `i`
        gets index `i` in both fanfiction maps. */
    method TokenizeFanfics(inputFanfics: seq<Fanfic>, stopWords: set<string>)
      returns (tokenizedDescriptions: seq<TokenizedFanfic>)
      modifies this
      ensures |tokenizedDescriptions| == |inputFanfics|
      ensures forall i :: 0 <= i < |inputFanfics| ==>
        tokenizedDescriptions[i] == TokenizedFanfic(inputFanfics[i].id, Tokens(inputFanfics[i].description, stopWords))
      ensures ficIdToIndex == old(ficIdToIndex) + LastPositions(FicIds(inputFanfics))
      ensures indexToFicId == old(indexToFicId) + Positions(FicIds(inputFanfics))
      ensures webnovelTitleToIndex == old(webnovelTitleToIndex)
      ensures indexToWebnovelTitle == old(indexToWebnovelTitle)
    {
      var counter := 0;
      tokenizedDescriptions := [];
      ghost var ids := FicIds(inputFanfics);
      while counter < |inputFanfics|
        invariant 0 <= counter <= |inputFanfics|
        invariant |tokenizedDescriptions| == counter
        invariant forall i :: 0 <= i < counter ==>
          tokenizedDescriptions[i] == TokenizedFanfic(inputFanfics[i].id, Tokens(inputFanfics[i].description, stopWords))
        invariant ficIdToIndex == old(ficIdToIndex) + LastPositions(ids[..counter])
        invariant indexToFicId == old(indexToFicId) + Positions(ids[..counter])
        invariant webnovelTitleToIndex == old(webnovelTitleToIndex)
        invariant indexToWebnovelTitle == old(indexToWebnovelTitle)
      {
        var fanficId := inputFanfics[counter].id;
        var fanficDescription := inputFanfics[counter].description;
        var toks := Tokenize(fanficDescription, stopWords);
        tokenizedDescriptions := tokenizedDescriptions + [TokenizedFanfic(fanficId, toks)];
        LastPositionsSnoc(ids, counter);
        PositionsSnoc(ids, counter);
        UpdateMerged(old(ficIdToIndex), LastPositions(ids[..counter]), fanficId, counter);
        UpdateMerged(old(indexToFicId), Positions(ids[..counter]), counter, fanficId);
        ficIdToIndex := ficIdToIndex[fanficId := counter];
        indexToFicId := indexToFicId[counter := fanficId];
        counter := counter + 1;
      }
      assert ids[..counter] == ids;
    }

    /** One `{index, tokenized_description}` per record, in order, record
        `i` carrying index `i`; the web-novel maps relate `i` to the
        record's first title. A record without titles is out of reach. */
    method TokenizeWebnovels(inputWebnovels: seq<Webnovel>, stopWords: set<string>)
      returns (tokenizedDescriptions: seq<TokenizedWebnovel>)
      requires forall i :: 0 <= i < |inputWebnovels| ==> inputWebnovels[i].titles != []
      modifies this
      ensures |tokenizedDescriptions| == |inputWebnovels|
      ensures forall i :: 0 <= i < |inputWebnovels| ==>
        tokenizedDescriptions[i] == TokenizedWebnovel(i, Tokens(inputWebnovels[i].description, stopWords))
      ensures webnovelTitleToIndex == old(webnovelTitleToIndex) + LastPositions(FirstTitles(inputWebnovels))
      ensures indexToWebnovelTitle == old(indexToWebnovelTitle) + Positions(FirstTitles(inputWebnovels))
      ensures ficIdToIndex == old(ficIdToIndex)
      ensures indexToFicId == old(indexToFicId)
    {
      var counter := 0;
      tokenizedDescriptions := [];
      ghost var titles := FirstTitles(inputWebnovels);
      while counter < |inputWebnovels|
        invariant 0 <= counter <= |inputWebnovels|
        invariant |tokenizedDescriptions| == counter
        invariant forall i :: 0 <= i < counter ==>
          tokenizedDescriptions[i] == TokenizedWebnovel(i, Tokens(inputWebnovels[i].description, stopWords))
        invariant webnovelTitleToIndex == old(webnovelTitleToIndex) + LastPositions(titles[..counter])
        invariant indexToWebnovelTitle == old(indexToWebnovelTitle) + Positions(titles[..counter])
        invariant ficIdToIndex == old(ficIdToIndex)
        invariant indexToFicId == old(indexToFicId)
      {
        var webnovelTitle := inputWebnovels[counter].titles[0];
        var webnovelDescription := inputWebnovels[counter].description;
        var toks := Tokenize(webnovelDescription, stopWords);
        tokenizedDescriptions := tokenizedDescriptions + [TokenizedWebnovel(counter, toks)];
        LastPositionsSnoc(titles, counter);
        PositionsSnoc(titles, counter);
        UpdateMerged(old(webnovelTitleToIndex), LastPositions(titles[..counter]), webnovelTitle, counter);
        UpdateMerged(old(indexToWebnovelTitle), Positions(titles[..counter]), counter, webnovelTitle);
        webnovelTitleToIndex := webnovelTitleToIndex[webnovelTitle := counter];
        indexToWebnovelTitle := indexToWebnovelTitle[counter := webnovelTitle];
        counter := counter + 1;
      }
      assert titles[..counter] == titles;
    }
  }

  // ---------------------------------------------------------------------
  // What the maps mean.

  /** Every key gets a position, and that position is its last occurrence. */
  lemma {:induction false} LastPositionsAreLast<K>(keys: seq<K>)
    ensures forall k :: k in LastPositions(keys) <==> k in keys
    ensures forall k :: k in LastPositions(keys) ==>
      LastPositions(keys)[k] < |keys| && keys[LastPositions(keys)[k]] == k
    ensures forall k, j :: k in LastPositions(keys) && LastPositions(keys)[k] < j < |keys| ==> keys[j] != k
  {
    if keys != [] {
      var n := |keys| - 1;
      var init := keys[..n];
      LastPositionsAreLast(init);
      assert keys == init + [keys[n]];
      forall k | k in init ensures k in keys { }
      forall k | k in keys && k != keys[n] ensures k in init {
        var i :| 0 <= i < |keys| && keys[i] == k;
        assert init[i] == k;
      }
    }
  }

  /** With distinct keys, the two maps are inverse to each other: key
      `keys[i]` maps to `i` and `i` back to `keys[i]`. */
  lemma Inverse<K>(keys: seq<K>)
    requires forall i, j :: 0 <= i < j < |keys| ==> keys[i] != keys[j]
    ensures forall i :: 0 <= i < |keys| ==> keys[i] in LastPositions(keys) && LastPositions(keys)[keys[i]] == i
    ensures forall k :: k in LastPositions(keys) ==>
      LastPositions(keys)[k] in Positions(keys) && Positions(keys)[LastPositions(keys)[k]] == k
  {
    LastPositionsAreLast(keys);
    forall i | 0 <= i < |keys| ensures keys[i] in LastPositions(keys) && LastPositions(keys)[keys[i]] == i {
      assert keys[i] in keys;
      var p := LastPositions(keys)[keys[i]];
      assert keys[p] == keys[i];
    }
  }

  /** For fanfictions with distinct ids: `fic_id_to_index[id]` is the
      position of the record with that id, and `index_to_fic_id` undoes it. */
  lemma FanficMapsInverse(fanfics: seq<Fanfic>)
    requires forall i, j :: 0 <= i < j < |fanfics| ==> fanfics[i].id != fanfics[j].id
    ensures forall i :: 0 <= i < |fanfics| ==>
      fanfics[i].id in LastPositions(FicIds(fanfics)) && LastPositions(FicIds(fanfics))[fanfics[i].id] == i
    ensures forall i :: 0 <= i < |fanfics| ==> Positions(FicIds(fanfics))[i] == fanfics[i].id
  {
    var ids := FicIds(fanfics);
    Inverse(ids);
    forall i | 0 <= i < |fanfics| ensures Positions(ids)[i] == fanfics[i].id {
      assert ids[i] == fanfics[i].id;
    }
  }

  /** For web novels with distinct first titles: the title map gives each
      record's position, and the index map undoes it. */
  lemma WebnovelMapsInverse(webnovels: seq<Webnovel>)
    requires forall i :: 0 <= i < |webnovels| ==> webnovels[i].titles != []
    requires forall i, j :: 0 <= i < j < |webnovels| ==> webnovels[i].titles[0] != webnovels[j].titles[0]
    ensures forall i :: 0 <= i < |webnovels| ==>
      webnovels[i].titles[0] in LastPositions(FirstTitles(webnovels))
      && LastPositions(FirstTitles(webnovels))[webnovels[i].titles[0]] == i
    ensures forall i :: 0 <= i < |webnovels| ==> Positions(FirstTitles(webnovels))[i] == webnovels[i].titles[0]
  {
    var titles := FirstTitles(webnovels);
    Inverse(titles);
    forall i | 0 <= i < |webnovels| ensures Positions(titles)[i] == webnovels[i].titles[0] {
      assert titles[i] == webnovels[i].titles[0];
    }
  }
}
