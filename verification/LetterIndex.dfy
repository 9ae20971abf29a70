/** DictProducer::CreateIndex and Dictionary::DoQuery: which dictionary lines share letters with a key. */
module LetterIndex {
  import opened Letters
  import opened Tally

  type Index = map<string, set<int>>

  ghost predicate Lists(index: Index, letter: string, line: int) { letter in index && line in index[letter] }

  /** The two indexes answer alike: one may have empty entries that the other has not. */
  ghost predicate Alike(a: Index, b: Index) { forall ch, n :: Lists(a, ch, n) <==> Lists(b, ch, n) }

  /** The index lists under each letter the lines of the words that contain it. */
  ghost predicate BuiltFrom(index: Index, dict: seq<(string, int)>, w: nat)
    requires w > 0
  {
    forall ch, n :: Lists(index, ch, n) <==> 0 <= n < |dict| && ch in Pieces(dict[n].0, w)
  }

  class DictProducer {
    var dict: seq<(string, int)>
    var index: Index

    constructor (dict: seq<(string, int)>)
      ensures this.dict == dict && index == map[]
    {
      this.dict := dict;
      index := map[];
    }

    /** CreateIndex: what it adds to the index, letter width 3 for Chinese and 1 for English. */
    method CreateIndex(chinese: bool)
      modifies this`index
      ensures var w := if chinese then 3 else 1;
        forall ch, n ::
          Lists(index, ch, n) <==> Lists(old(index), ch, n) || (0 <= n < |dict| && ch in Pieces(dict[n].0, w))
      ensures old(index) == map[] ==> BuiltFrom(index, dict, if chinese then 3 else 1)
    {
      var w := if chinese then 3 else 1;
      for idx := 0 to |dict|
        invariant forall ch, n ::
          Lists(index, ch, n) <==> Lists(old(index), ch, n) || (0 <= n < idx && ch in Pieces(dict[n].0, w))
      {
        IndexWord(idx, dict[idx].0, w);
      }
    }

    /** The inner loop of CreateIndex: the letters of one word. */
    method IndexWord(idx: nat, word: string, w: nat)
      requires w > 0
      modifies this`index
      ensures forall ch, n :: Lists(index, ch, n) <==> Lists(old(index), ch, n) || (n == idx && ch in Pieces(word, w))
    {
      var pos := 0;
      ghost var done: set<string> := {};
      while pos < |word|
        invariant pos <= |word| ==> done + Pieces(word[pos..], w) == Pieces(word, w)
        invariant pos > |word| ==> done == Pieces(word, w)
        invariant forall ch, n :: Lists(index, ch, n) <==> Lists(old(index), ch, n) || (n == idx && ch in done)
      {
        var letter := Piece(word, pos, w);
        PiecesStep(word, pos, w);
        index := index[letter := (if letter in index then index[letter] else {}) + {idx}];
        done := done + {letter};
        pos := pos + w;
      }
    }
  }

  /** string(s, pos, w) */
  function Piece(s: string, pos: nat, w: nat): string
    requires pos <= |s|
  {
    if |s| - pos < w then s[pos..] else s[pos..pos + w]
  }

  lemma PiecesStep(s: string, pos: nat, w: nat)
    requires w > 0 && pos < |s|
    ensures Pieces(s[pos..], w) == {Piece(s, pos, w)} + if pos + w <= |s| then Pieces(s[pos + w..], w) else {}
  {
    if pos + w < |s| {
      assert s[pos..][w..] == s[pos + w..] && s[pos..][..w] == s[pos..pos + w];
    } else {
      assert Piece(s, pos, w) == s[pos..];
    }
  }

  // ----- queries -----

  /** The pieces that DoQuery cuts the key into: all of it when its first byte tells no width. */
  function KeyPieces(key: string): set<string> {
    if CharLen(key) == -1 then {key} else Pieces(key, CharLen(key))
  }

  /** The line is listed under the piece, in the index that the piece's first byte selects. */
  ghost predicate Found(zh: Index, en: Index, ch: string, line: int) {
    (CharLen(ch) == 3 && Lists(zh, ch, line)) || (CharLen(ch) == 1 && Lists(en, ch, line))
  }

  /** freq holds the lines that some of the pieces are found at, each with the number of such pieces. */
  ghost predicate Counts(freq: map<int, nat>, zh: Index, en: Index, pieces: set<string>) {
    Tallies(freq, (ch, n) => Found(zh, en, ch, n), pieces)
  }

  class Dictionary {
    var indexEn: Index
    var indexZh: Index

    constructor (indexEn: Index, indexZh: Index)
      ensures this.indexEn == indexEn && this.indexZh == indexZh
    {
      this.indexEn, this.indexZh := indexEn, indexZh;
    }

    /** operator[] on an index: a letter without an entry gets an empty one. */
    method Lines(ch: string) returns (lines: set<int>)
      modifies this`indexEn, this`indexZh
      ensures Alike(indexZh, old(indexZh)) && Alike(indexEn, old(indexEn))
      ensures forall n :: n in lines <==> Found(old(indexZh), old(indexEn), ch, n)
    {
      lines := {};
      if CharLen(ch) == 3 {
        if ch !in indexZh {
          indexZh := indexZh[ch := {}];
        }
        lines := indexZh[ch];
      } else if CharLen(ch) == 1 {
        if ch !in indexEn {
          indexEn := indexEn[ch := {}];
        }
        lines := indexEn[ch];
      }
    }

    /** DoQuery: each line that shares a piece with the key, with the number of pieces shared. */
    method DoQuery(key: string) returns (freq: map<int, nat>)
      modifies this`indexEn, this`indexZh
      ensures Counts(freq, old(indexZh), old(indexEn), KeyPieces(key))
      ensures Alike(indexZh, old(indexZh)) && Alike(indexEn, old(indexEn))
    {
      var pieces := CutKey(key);
      freq := map[];
      var todo := pieces;
      while todo != {}
        invariant todo <= pieces && Counts(freq, old(indexZh), old(indexEn), pieces - todo)
        invariant Alike(indexZh, old(indexZh)) && Alike(indexEn, old(indexEn))
      {
        var ch := Any(todo);
        ghost var before := freq;
        var lines := Lines(ch);
        freq := Bump(freq, lines);
        TallyStep(before, freq, (ch, n) => Found(old(indexZh), old(indexEn), ch, n), pieces - todo, ch, lines);
        assert pieces - todo + {ch} == pieces - (todo - {ch});
        todo := todo - {ch};
      }
      assert pieces - todo == pieces;
    }

    /** The loop over the key. With the width -1 its counter leaves the key after one turn, whose piece is the whole
        key. */
    method CutKey(key: string) returns (pieces: set<string>)
      ensures pieces == KeyPieces(key)
    {
      var w := CharLen(key);
      pieces := {};
      if w == -1 {
        return {key};
      }
      hide Pieces, Piece, CharLen;
      assert key[0..] == key;
      var i := 0;
      while i < |key|
        invariant i <= |key| ==> pieces + Pieces(key[i..], w) == Pieces(key, w)
        invariant i > |key| ==> pieces == Pieces(key, w)
      {
        PiecesStep(key, i, w);
        pieces := pieces + {Piece(key, i, w)};
        i := i + w;
      }
    }
  }

  // ----- what a query means -----

  /** All pieces of the key begin like letters of the key's own width. */
  ghost predicate Uniform(key: string) {
    CharLen(key) != -1 && forall ch :: ch in Pieces(key, CharLen(key)) ==> CharLen(ch) == CharLen(key)
  }

  /** For such a key, the count of line n is the size of the intersection of the letters of the key and of word n of the
      dictionary of its width, and n is present exactly when they share one. */
  lemma CountsSharedLetters(freq: map<int, nat>, zh: Index, en: Index, dict: seq<(string, int)>, key: string)
    requires Uniform(key) && Counts(freq, zh, en, KeyPieces(key))
    requires BuiltFrom(if CharLen(key) == 3 then zh else en, dict, CharLen(key))
    ensures var w := CharLen(key);
      forall n :: (n in freq <==> 0 <= n < |dict| && Pieces(key, w) * Pieces(dict[n].0, w) != {})
        && (n in freq ==> freq[n] == |Pieces(key, w) * Pieces(dict[n].0, w)|)
  {
    var w := CharLen(key);
    var found := (ch, n) => Found(zh, en, ch, n);
    forall n
      ensures Hits(found, KeyPieces(key), n) ==
        if 0 <= n < |dict| then Pieces(key, w) * Pieces(dict[n].0, w) else {}
    {
    }
  }

  /** A key whose first byte tells no width finds nothing. */
  lemma NoWidthNoLines(freq: map<int, nat>, zh: Index, en: Index, key: string)
    requires CharLen(key) == -1 && Counts(freq, zh, en, KeyPieces(key))
    ensures freq == map[]
  {
    var found := (ch, n) => Found(zh, en, ch, n);
    forall n ensures n !in freq {
      assert Hits(found, KeyPieces(key), n) == {};
    }
  }

  /** Building an index, loading it and asking: the indexes of both widths are made of empty ones. */
  method AskBuilt(chinese: seq<(string, int)>, english: seq<(string, int)>, key: string) returns (freq: map<int, nat>)
    requires Uniform(key)
    ensures var w, dict := CharLen(key), if CharLen(key) == 3 then chinese else english;
      forall n :: (n in freq <==> 0 <= n < |dict| && Pieces(key, w) * Pieces(dict[n].0, w) != {})
        && (n in freq ==> freq[n] == |Pieces(key, w) * Pieces(dict[n].0, w)|)
  {
    var zh := new DictProducer(chinese);
    zh.CreateIndex(true);
    var en := new DictProducer(english);
    en.CreateIndex(false);
    var dictionary := new Dictionary(en.index, zh.index);
    freq := dictionary.DoQuery(key);
    CountsSharedLetters(freq, zh.index, en.index, if CharLen(key) == 3 then chinese else english, key);
  }
}
