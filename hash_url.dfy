/** The share-link codec of musigen/api/hash.py: a URL is a grid hash, a scale and a bpm,
    joined by dashes. Only the grid hash may itself contain dashes. */
module HashUrl {

  import opened Wrappers
  import opened Text

  datatype Fields = Fields(gridHash: string, scale: string, bpm: string)

  /** decodeUrl: rsplit on '-' with at most two cuts, then three pops from the end. Fewer
      than two dashes leave fewer than three pieces, and a pop from the emptied list raises
      IndexError. */
  function Decode(url: string): (r: Result<Fields>)
    ensures r.Err? <==> Count(url, '-') < 2
    ensures r.Err? ==> r.error == IndexOutOfRange
    ensures r.Ok? ==> '-' !in r.value.scale && '-' !in r.value.bpm
  {
    var parts := RSplit(url, '-', 2);
    RSplitCount(url, '-', 2);
    if |parts| < 3 then Err(IndexOutOfRange)
    else Ok(Fields(parts[0], parts[1], parts[2]))
  }

  /** encodeUrl: the three fields with a dash between each two. */
  function Encode(f: Fields): (url: string)
    ensures Count(url, '-') == Count(f.gridHash, '-') + Count(f.scale, '-') + Count(f.bpm, '-') + 2
  {
    var url := f.gridHash + "-" + f.scale + "-" + f.bpm;
    CountAppend(f.gridHash, "-", '-');
    CountAppend(f.gridHash + "-", f.scale, '-');
    CountAppend(f.gridHash + "-" + f.scale, "-", '-');
    CountAppend(f.gridHash + "-" + f.scale + "-", f.bpm, '-');
    assert Count("-", '-') == 1;
    url
  }

  /** Decoding an encoded URL gives back its fields whenever the scale and the bpm hold no
      dash; the grid hash may hold any number of them. */
  lemma DecodeEncode(f: Fields)
    requires '-' !in f.scale && '-' !in f.bpm
    ensures Decode(Encode(f)) == Ok(f)
  {
    var head := f.gridHash + "-" + f.scale;
    var url := Encode(f);
    assert url == head + ['-'] + f.bpm;
    LastIndexOfJoin(head, '-', f.bpm);
    assert url[..|head|] == head && url[|head| + 1..] == f.bpm;
    assert head == f.gridHash + ['-'] + f.scale;
    LastIndexOfJoin(f.gridHash, '-', f.scale);
    assert head[..|f.gridHash|] == f.gridHash && head[|f.gridHash| + 1..] == f.scale;
    assert RSplit(head, '-', 1) == [f.gridHash, f.scale];
    assert RSplit(url, '-', 2) == [f.gridHash, f.scale, f.bpm];
  }

  /** Every URL that decodes is the encoding of what it decodes to. */
  lemma EncodeDecode(url: string)
    requires Decode(url).Ok?
    ensures Encode(Decode(url).value) == url
  {
    var parts := RSplit(url, '-', 2);
    assert Decode(url).value == Fields(parts[0], parts[1], parts[2]);
    RSplitJoin(url, '-', 2);
    JoinThree(parts, '-');
  }
}
