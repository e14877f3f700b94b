/**
 * Tokenising of the comma-separated allow-list values (allowed hosts, users
 * and groups of a trusted proxy): split on ',', trim each piece, and drop the
 * pieces that are empty after trimming.
 */
module AllowList {
  import opened Text

  /** The token a piece contributes: its trimmed form, unless that is empty. */
  function CleanPiece(piece: string): (tokens: seq<string>)
    ensures |tokens| <= 1
  {
    var t := Trim(piece);
    if t == "" then [] else [t]
  }

  /** The trimmed, non-empty pieces of `parts`, in order. */
  function Clean(parts: seq<string>): seq<string> {
    FlatMap(CleanPiece, parts)
  }

  /** The tokens of a raw allow-list value: every non-blank comma-separated
      piece contributes its trimmed form, and each token is non-empty, has no
      white-space border and no comma (CleanMembers: and nothing else is a token). */
  function Tokens(raw: string): (tokens: seq<string>)
    ensures forall t :: t in tokens ==> t != "" && IsTrimmed(t) && ',' !in t
    ensures forall p :: p in Split(raw, ',') && Trim(p) != "" ==> Trim(p) in tokens
  {
    var parts := Split(raw, ',');
    CleanWords(parts);
    Clean(parts)
  }

  /** Tokens folded to lower case, for the case-insensitive lists (users, groups). */
  function FoldedTokens(raw: string): (folded: seq<string>)
    ensures |folded| == |Tokens(raw)|
  {
    var tokens := Tokens(raw);
    seq(|tokens|, i requires 0 <= i < |tokens| => ToLower(tokens[i]))
  }

  /** A token is exactly the trimmed form of some non-blank piece. */
  lemma CleanMembers(parts: seq<string>, t: string)
    ensures t in Clean(parts) <==> t != "" && exists p :: p in parts && Trim(p) == t
  {
    FlatMapMembers(CleanPiece, parts, t);
  }

  /** Cleaning pieces that hold no comma gives clean words, and keeps every non-blank piece. */
  lemma CleanWords(parts: seq<string>)
    requires forall k :: 0 <= k < |parts| ==> ',' !in parts[k]
    ensures forall t :: t in Clean(parts) ==> t != "" && IsTrimmed(t) && ',' !in t
    ensures forall p :: p in parts && Trim(p) != "" ==> Trim(p) in Clean(parts)
  {
    forall p | p in parts && Trim(p) != ""
      ensures Trim(p) in Clean(parts)
    {
      CleanMembers(parts, Trim(p));
    }
    forall t | t in Clean(parts)
      ensures t != "" && IsTrimmed(t) && ',' !in t
    {
      CleanMembers(parts, t);
      var p :| p in parts && Trim(p) == t;
      var i, j := TrimBounds(p);
      if ',' in t {
        TrimKeepsCharacters(p, ',');
      }
    }
  }

  /** Joining two lists with a comma joins their tokens. */
  lemma TokensAppend(a: string, b: string)
    ensures Tokens(a + "," + b) == Tokens(a) + Tokens(b)
  {
    SplitAppend(a, ',', b);
    FlatMapAppend(CleanPiece, Split(a, ','), Split(b, ','));
  }

  /** A value that is a single clean word is its own only token. */
  lemma TokensOfWord(w: string)
    requires w != "" && IsTrimmed(w) && ',' !in w
    ensures Tokens(w) == [w]
  {
    SplitNoSeparator(w, ',');
    TrimFixpoint(w);
    FlatMapSingleton(CleanPiece, w);
  }

  /** A value that is empty or only white space has no tokens. */
  lemma TokensOfBlank(raw: string)
    requires Trim(raw) == ""
    ensures Tokens(raw) == []
  {
    TrimBlank(raw);
    forall k | 0 <= k < |raw|
      ensures raw[k] != ','
    {
      assert IsSpace(raw[k]);
    }
    SplitNoSeparator(raw, ',');
    FlatMapSingleton(CleanPiece, raw);
  }

  /** Membership in the folded tokens is a case-insensitive match with some token. */
  lemma FoldedMembers(raw: string, x: string)
    ensures x in FoldedTokens(raw) <==> exists t :: t in Tokens(raw) && ToLower(t) == x
  {
    var tokens := Tokens(raw);
    var folded := FoldedTokens(raw);
    if x in folded {
      var i :| 0 <= i < |folded| && folded[i] == x;
      assert tokens[i] in tokens;
    }
    if exists t :: t in tokens && ToLower(t) == x {
      var t :| t in tokens && ToLower(t) == x;
      var i :| 0 <= i < |tokens| && tokens[i] == t;
      assert folded[i] == x;
    }
  }

  /** The wildcard survives folding and nothing else folds to it. */
  lemma FoldedStar(raw: string)
    ensures "*" in FoldedTokens(raw) <==> "*" in Tokens(raw)
  {
    FoldedMembers(raw, "*");
    forall t | t in Tokens(raw)
      ensures ToLower(t) == "*" <==> t == "*"
    {
      ToLowerOfStar(t);
    }
  }
}
