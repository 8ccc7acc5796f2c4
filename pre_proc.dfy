/** Input preparation from `pre_proc.c`: the reverse complement of a
    nucleotide chain, the two FASTA readers, and the choice of scoring
    table. */
module PreProc {
  import opened Bytes

  /** A named residue sequence, what `chainCreate` builds from a name and a
      string of residues. */
  datatype Chain = Chain(name: string, residues: string)

  // ---------------------------------------------------------------------------
  // createChainComplement

  /** Watson-Crick pairing of one nucleotide; anything else is kept. */
  function Complement(c: char): char
  {
    match c
    case 'A' => 'T'
    case 'T' => 'A'
    case 'C' => 'G'
    case 'G' => 'C'
    case _ => c
  }

  /** The complementary strand read in its own 5' to 3' direction. */
  function ReverseComplement(s: string): (r: string)
    ensures |r| == |s|
    ensures forall i :: 0 <= i < |s| ==> r[|s| - 1 - i] == Complement(s[i])
  {
    if s == [] then []
    else
      ReverseComplement(s[1..]) + [Complement(s[0])]
  }

  /** Complementing the complement gives back the original chain. */
  lemma ReverseComplementTwice(s: string)
    ensures ReverseComplement(ReverseComplement(s)) == s
  {
    var r := ReverseComplement(s);
    var rr := ReverseComplement(r);
    forall i | 0 <= i < |s|
      ensures rr[i] == s[i]
    {
      var j := |s| - 1 - i;
      assert rr[|r| - 1 - j] == Complement(r[j]);
    }
  }

  /** `createChainComplement`: the residues complemented into a new string
      from its far end, under the name "CMPL". */
  method CreateChainComplement(chain: Chain) returns (complement: Chain)
    ensures complement == Chain("CMPL", ReverseComplement(chain.residues))
  {
    var length := |chain.residues|;
    var str := new char[length];
    for i := 0 to length
      invariant forall k :: 0 <= k < i ==> str[length - 1 - k] == Complement(chain.residues[k])
    {
      str[length - 1 - i] := Complement(chain.residues[i]);
    }
    var r := ReverseComplement(chain.residues);
    forall k | 0 <= k < length
      ensures str[k] == r[k]
    {
      var i := length - 1 - k;
      assert str[length - 1 - i] == Complement(chain.residues[i]);
    }
    complement := Chain("CMPL", str[..]);
  }

  // ---------------------------------------------------------------------------
  // The FASTA state machine

  /** `isalpha` in the C locale. */
  predicate IsAlpha(c: char)
  {
    'A' <= c <= 'Z' || 'a' <= c <= 'z'
  }

  /** What the readers keep from one character to the next: whether the
      header line is being read, and the name and residues so far. */
  datatype Reader = Reader(isName: bool, name: string, residues: string)

  const Fresh: Reader := Reader(true, [], [])

  /** One character: on the header line every character but a '>' met while
      the name is still empty joins the name, and the newline ends the line;
      after it only letters are kept. */
  function Feed(r: Reader, c: char): Reader
  {
    if r.isName then
      if c == '\n' then r.(isName := false)
      else if !(|r.name| == 0 && c == '>') then r.(name := r.name + [c])
      else r
    else if IsAlpha(c) then r.(residues := r.residues + [c])
    else r
  }

  /** The reader after the first `n` characters of `s`. */
  function Run(r: Reader, s: string, n: nat): (q: Reader)
    requires n <= |s|
    ensures |q.name| <= |r.name| + n && |q.residues| <= |r.residues| + n
  {
    if n == 0 then r else Feed(Run(r, s, n - 1), s[n - 1])
  }

  /** The 1024-character name buffer is never written past its end. */
  predicate NameFits(s: string)
  {
    forall k :: 0 <= k < |s| ==> (Run(Fresh, s, k).isName ==> |Run(Fresh, s, k).name| < 1024)
  }

  /** `readFastaChain`: the input arrives in 4096-character reads, and one
      chain is built from the whole file. */
  method ReadFastaChain(input: string) returns (chain: Chain)
    requires NameFits(input)
    ensures chain == Chain(Run(Fresh, input, |input|).name, Run(Fresh, input, |input|).residues)
  {
    var str := new char[|input|];
    var strLen: nat := 0;
    var name := new char[1024];
    var nameLen: nat := 0;
    var buffer := new char[4096];
    var isName := true;
    var pos: nat := 0;
    while pos < |input|
      invariant pos <= |input|
      invariant nameLen <= 1024 && strLen <= pos
      invariant Run(Fresh, input, pos) == Reader(isName, name[..nameLen], str[..strLen])
    {
      var read := if |input| - pos < 4096 then |input| - pos else 4096;
      CopyInto(buffer, 0, input[pos..pos + read]);
      nameLen, strLen, isName := FeedBlock(buffer[..read], input, pos, name, nameLen, str, strLen, isName);
      pos := pos + read;
    }
    chain := Chain(name[..nameLen], str[..strLen]);
  }

  /** The inner loop of `readFastaChain` over one read of `block`, the
      characters of the file from position `pos` on. */
  method FeedBlock(block: string, ghost input: string, ghost pos: nat,
                   name: array<char>, nameLen: nat, str: array<char>, strLen: nat, isName: bool)
    returns (nextNameLen: nat, nextStrLen: nat, nextIsName: bool)
    requires NameFits(input)
    requires pos + |block| <= |input| && block == input[pos..pos + |block|]
    requires name != str && name.Length == 1024 && str.Length == |input|
    requires nameLen <= 1024 && strLen <= pos
    requires Run(Fresh, input, pos) == Reader(isName, name[..nameLen], str[..strLen])
    modifies name, str
    ensures nextNameLen <= 1024 && nextStrLen <= pos + |block|
    ensures Run(Fresh, input, pos + |block|) == Reader(nextIsName, name[..nextNameLen], str[..nextStrLen])
  {
    nextNameLen, nextStrLen, nextIsName := nameLen, strLen, isName;
    for i := 0 to |block|
      invariant nextNameLen <= 1024 && nextStrLen <= pos + i
      invariant Run(Fresh, input, pos + i) == Reader(nextIsName, name[..nextNameLen], str[..nextStrLen])
    {
      var c := block[i];
      assert c == input[pos + i];
      assert Run(Fresh, input, pos + i + 1) == Feed(Run(Fresh, input, pos + i), c);
      nextNameLen, nextStrLen, nextIsName := FeedChar(name, nextNameLen, str, nextStrLen, nextIsName, c);
    }
  }

  /** The loop body of `readFastaChain` for one character `c`: the header
      line goes into `name`, with its terminator written at the newline, and
      letters after it into `str`. */
  method FeedChar(name: array<char>, nameLen: nat, str: array<char>, strLen: nat, isName: bool, c: char)
    returns (nextNameLen: nat, nextStrLen: nat, nextIsName: bool)
    requires name != str && nameLen <= name.Length && strLen < str.Length
    requires isName ==> nameLen < name.Length
    modifies name, str
    ensures nextNameLen <= name.Length && nextStrLen <= strLen + 1
    ensures Reader(nextIsName, name[..nextNameLen], str[..nextStrLen])
         == Feed(Reader(isName, old(name[..nameLen]), old(str[..strLen])), c)
  {
    nextNameLen, nextStrLen, nextIsName := nameLen, strLen, isName;
    if isName {
      if c == '\n' {
        name[nameLen] := '\0';
        nextIsName := false;
      } else if !(nameLen == 0 && c == '>') {
        name[nameLen] := c;
        nextNameLen := nameLen + 1;
      }
    } else if IsAlpha(c) {
      str[strLen] := c;
      nextStrLen := strLen + 1;
    }
  }

  // ---------------------------------------------------------------------------
  // A reference reading of a single-chain file

  /** Where the first line ends: the first newline, or the end. */
  function LineEnd(s: string): (n: nat)
    ensures n <= |s|
    ensures forall k :: 0 <= k < n ==> s[k] != '\n'
    ensures n < |s| ==> s[n] == '\n'
  {
    LineEndFrom(s, 0)
  }

  function LineEndFrom(s: string, i: nat): (n: nat)
    requires i <= |s|
    ensures i <= n <= |s|
    ensures forall k :: i <= k < n ==> s[k] != '\n'
    ensures n < |s| ==> s[n] == '\n'
    decreases |s| - i
  {
    if i == |s| || s[i] == '\n' then i else LineEndFrom(s, i + 1)
  }

  /** The number of '>' the first line starts with. */
  function Marks(s: string): (n: nat)
    ensures n <= |s|
    ensures forall k :: 0 <= k < n ==> s[k] == '>'
    ensures n < |s| ==> s[n] != '>'
  {
    MarksFrom(s, 0)
  }

  function MarksFrom(s: string, i: nat): (n: nat)
    requires i <= |s|
    ensures i <= n <= |s|
    ensures forall k :: i <= k < n ==> s[k] == '>'
    ensures n < |s| ==> s[n] != '>'
    decreases |s| - i
  {
    if i == |s| || s[i] != '>' then i else MarksFrom(s, i + 1)
  }

  /** The first line ends at the first newline and nowhere else. */
  lemma LineEndIs(s: string, n: nat)
    requires n <= |s| && (forall k :: 0 <= k < n ==> s[k] != '\n') && (n < |s| ==> s[n] == '\n')
    ensures LineEnd(s) == n
  {
  }

  lemma MarksIs(s: string, n: nat)
    requires n <= |s| && (forall k :: 0 <= k < n ==> s[k] == '>') && (n < |s| ==> s[n] != '>')
    ensures Marks(s) == n
  {
  }

  /** The letters of `s`, in order. */
  function Letters(s: string): (r: string)
    ensures forall c :: c in r ==> IsAlpha(c)
  {
    if s == [] then [] else Letters(s[..|s| - 1]) + (if IsAlpha(s[|s| - 1]) then [s[|s| - 1]] else [])
  }

  /** A single-chain file read directly: the name is the first line without
      its leading '>' characters, the residues are the letters after it. */
  function Expected(s: string): Reader
  {
    var e := LineEnd(s);
    var line := s[..e];
    Reader(e == |s|, line[Marks(line)..], if e < |s| then Letters(s[e + 1..]) else [])
  }

  lemma LineEndSnoc(s: string, c: char)
    ensures LineEnd(s + [c]) == if LineEnd(s) < |s| then LineEnd(s) else if c == '\n' then |s| else |s| + 1
  {
    var e := LineEnd(s);
    LineEndIs(s + [c], if e < |s| then e else if c == '\n' then |s| else |s| + 1);
  }

  lemma MarksSnoc(s: string, c: char)
    ensures Marks(s + [c]) == if Marks(s) < |s| || c != '>' then Marks(s) else |s| + 1
  {
    var m := Marks(s);
    MarksIs(s + [c], if m < |s| || c != '>' then m else |s| + 1);
  }

  /** Past the first line, a character only adds to the residues. */
  lemma ExpectedSnocBody(s: string, c: char)
    requires LineEnd(s) < |s|
    ensures Expected(s + [c]) == Feed(Expected(s), c)
  {
    var t := s + [c];
    LineEndSnoc(s, c);
    var e := LineEnd(s);
    assert t[..e] == s[..e];
    var after := s[e + 1..];
    assert t[e + 1..] == after + [c];
    assert (after + [c])[..|after|] == after;
  }

  /** On the first line, a character other than the newline extends the
      name unless it is a '>' before any other character. */
  lemma ExpectedSnocHeader(s: string, c: char)
    requires LineEnd(s) == |s| && c != '\n'
    ensures Expected(s + [c]) == Feed(Expected(s), c)
  {
    var t := s + [c];
    LineEndSnoc(s, c);
    assert s[..|s|] == s;
    assert t[..|s| + 1] == t;
    MarksSnoc(s, c);
    var m := Marks(s);
    if m < |s| || c != '>' {
      assert t[m..] == s[m..] + [c];
    } else {
      assert t[|s| + 1..] == [];
    }
  }

  /** Feeding one more character to the direct reading's state agrees with
      the direct reading of the longer input. */
  lemma ExpectedSnoc(s: string, c: char)
    ensures Expected(s + [c]) == Feed(Expected(s), c)
  {
    if LineEnd(s) < |s| {
      ExpectedSnocBody(s, c);
    } else if c == '\n' {
      LineEndSnoc(s, c);
      assert (s + [c])[..|s|] == s;
    } else {
      ExpectedSnocHeader(s, c);
    }
  }

  /** `readFastaChain` reads exactly the direct reading of its input. */
  lemma {:induction false} ReadsExpected(s: string, n: nat)
    requires n <= |s|
    ensures Run(Fresh, s, n) == Expected(s[..n])
  {
    if n == 0 {
    } else {
      ReadsExpected(s, n - 1);
      assert s[..n] == s[..n - 1] + [s[n - 1]];
      ExpectedSnoc(s[..n - 1], s[n - 1]);
    }
  }

  // ---------------------------------------------------------------------------
  // readFastaChains

  /** The multi-chain reader: the single-chain state plus the chains closed
      so far. */
  datatype Reading = Reading(reader: Reader, chains: seq<Chain>)

  const Begin: Reading := Reading(Fresh, [])

  /** A '>' met after a header line closes the current chain and starts a
      new header; the character is then fed as usual, and being a '>' on an
      empty name, skipped. */
  function FeedChains(st: Reading, c: char): Reading
  {
    var closed :=
      if !st.reader.isName && c == '>' then Reading(Fresh, st.chains + [Chain(st.reader.name, st.reader.residues)])
      else st;
    closed.(reader := Feed(closed.reader, c))
  }

  function RunChains(st: Reading, s: string, n: nat): (q: Reading)
    requires n <= |s|
    ensures |q.chains| >= |st.chains|
  {
    if n == 0 then st else FeedChains(RunChains(st, s, n - 1), s[n - 1])
  }

  /** The chains of a whole file: those closed by a '>' and the one still
      open at the end. */
  function ReadAll(s: string): seq<Chain>
  {
    var st := RunChains(Begin, s, |s|);
    st.chains + [Chain(st.reader.name, st.reader.residues)]
  }

  predicate ChainNamesFit(s: string)
  {
    forall k :: 0 <= k < |s| ==>
      (RunChains(Begin, s, k).reader.isName ==> |RunChains(Begin, s, k).reader.name| < 1024)
  }

  /** `readFastaChains`: the same reads as `readFastaChain`, with `str` and
      `chains` doubled whenever they are full. One slot of `chains` is always
      kept free for the chain closed at the end of the file. */
  method ReadFastaChains(input: string) returns (chains: array<Chain>, chainsLen: nat)
    requires ChainNamesFit(input)
    ensures chainsLen <= chains.Length
    ensures chains[..chainsLen] == ReadAll(input)
  {
    var str := new char[4096];
    var strLen: nat := 0;
    var name := new char[1024];
    var nameLen: nat := 0;
    var buffer := new char[4096];
    var isName := true;
    chainsLen := 0;
    chains := new Chain[1000];
    var pos: nat := 0;
    while pos < |input|
      invariant pos <= |input|
      invariant nameLen <= 1024
      invariant 0 < str.Length && strLen <= str.Length
      invariant chainsLen < chains.Length && fresh(chains) && fresh(str)
      invariant buffer != str && buffer != name && str != name
      invariant RunChains(Begin, input, pos) == Reading(Reader(isName, name[..nameLen], str[..strLen]), chains[..chainsLen])
    {
      chains, chainsLen, str, nameLen, strLen, isName, pos :=
        ReadChainsBlock(input, pos, buffer, chains, chainsLen, name, nameLen, str, strLen, isName);
    }
    chains[chainsLen] := Chain(name[..nameLen], str[..strLen]);
    chainsLen := chainsLen + 1;
  }

  /** One `fread` of up to 4096 characters into `buffer`, from position
      `pos` of the file, then the inner loop over them; `nextPos` is where
      the next read starts. */
  method ReadChainsBlock(input: string, pos: nat, buffer: array<char>,
                         chains: array<Chain>, chainsLen: nat,
                         name: array<char>, nameLen: nat, str: array<char>, strLen: nat, isName: bool)
    returns (nextChains: array<Chain>, nextChainsLen: nat, nextStr: array<char>,
             nextNameLen: nat, nextStrLen: nat, nextIsName: bool, nextPos: nat)
    requires ChainNamesFit(input) && pos < |input| && buffer.Length == 4096
    requires buffer != str && buffer != name && name != str && name.Length == 1024 && nameLen <= 1024
    requires 0 < str.Length && strLen <= str.Length && chainsLen < chains.Length
    requires RunChains(Begin, input, pos) == Reading(Reader(isName, name[..nameLen], str[..strLen]), chains[..chainsLen])
    modifies buffer, name, str, chains
    ensures nextChains == chains || fresh(nextChains)
    ensures nextStr == str || fresh(nextStr)
    ensures nextStr != name && nextNameLen <= 1024
    ensures 0 < nextStr.Length && nextStrLen <= nextStr.Length && nextChainsLen < nextChains.Length
    ensures pos < nextPos <= |input|
    ensures RunChains(Begin, input, nextPos)
         == Reading(Reader(nextIsName, name[..nextNameLen], nextStr[..nextStrLen]), nextChains[..nextChainsLen])
  {
    var read := if |input| - pos < 4096 then |input| - pos else 4096;
    CopyInto(buffer, 0, input[pos..pos + read]);
    var block := buffer[..read];
    assert block == input[pos..pos + read];
    BlockNamesFit(input, pos, read);
    RunChainsFrom(Begin, input, pos, read, read);
    nextChains, nextChainsLen, nextStr, nextNameLen, nextStrLen, nextIsName :=
      FeedChainsBlock(block, RunChains(Begin, input, pos), chains, chainsLen, name, nameLen, str, strLen, isName);
    nextPos := pos + read;
  }

  /** The names stay within `name` while `block` is read from `st`. */
  predicate NamesFitIn(st: Reading, block: string)
  {
    forall k :: 0 <= k < |block| ==>
      (RunChains(st, block, k).reader.isName ==> |RunChains(st, block, k).reader.name| < 1024)
  }

  /** The inner loop of `readFastaChains` over one read of `block`, started
      in the state `st`. */
  method FeedChainsBlock(block: string, ghost st: Reading,
                         chains: array<Chain>, chainsLen: nat,
                         name: array<char>, nameLen: nat, str: array<char>, strLen: nat, isName: bool)
    returns (nextChains: array<Chain>, nextChainsLen: nat, nextStr: array<char>,
             nextNameLen: nat, nextStrLen: nat, nextIsName: bool)
    requires NamesFitIn(st, block)
    requires name != str && name.Length == 1024 && nameLen <= 1024
    requires 0 < str.Length && strLen <= str.Length && chainsLen < chains.Length
    requires st == Reading(Reader(isName, name[..nameLen], str[..strLen]), chains[..chainsLen])
    modifies name, str, chains
    ensures nextChains == chains || fresh(nextChains)
    ensures nextStr == str || fresh(nextStr)
    ensures nextStr != name && nextNameLen <= 1024
    ensures 0 < nextStr.Length && nextStrLen <= nextStr.Length && nextChainsLen < nextChains.Length
    ensures ReadFrom(st, block)
         == Reading(Reader(nextIsName, name[..nextNameLen], nextStr[..nextStrLen]), nextChains[..nextChainsLen])
  {
    nextChains, nextChainsLen, nextStr := chains, chainsLen, str;
    nextNameLen, nextStrLen, nextIsName := nameLen, strLen, isName;
    for i := 0 to |block|
      invariant nextChains == chains || fresh(nextChains)
      invariant nextStr == str || fresh(nextStr)
      invariant nextStr != name && nextNameLen <= 1024
      invariant 0 < nextStr.Length && nextStrLen <= nextStr.Length && nextChainsLen < nextChains.Length
      invariant RunChains(st, block, i)
             == Reading(Reader(nextIsName, name[..nextNameLen], nextStr[..nextStrLen]), nextChains[..nextChainsLen])
    {
      var c := block[i];
      assert RunChains(st, block, i + 1) == FeedChains(RunChains(st, block, i), c);
      nextChains, nextChainsLen, nextStr, nextNameLen, nextStrLen, nextIsName :=
        FeedChainsChar(RunChains(st, block, i), nextChains, nextChainsLen, name, nextNameLen, nextStr, nextStrLen, nextIsName, c);
    }
  }

  /** The loop body of `readFastaChains` for one character `c`. */
  method FeedChainsChar(ghost st: Reading, chains: array<Chain>, chainsLen: nat,
                        name: array<char>, nameLen: nat, str: array<char>, strLen: nat, isName: bool, c: char)
    returns (nextChains: array<Chain>, nextChainsLen: nat, nextStr: array<char>,
             nextNameLen: nat, nextStrLen: nat, nextIsName: bool)
    requires name != str && name.Length == 1024 && nameLen <= 1024
    requires 0 < str.Length && strLen <= str.Length && chainsLen < chains.Length
    requires isName ==> nameLen < 1024
    requires st == Reading(Reader(isName, name[..nameLen], str[..strLen]), chains[..chainsLen])
    modifies name, str, chains
    ensures nextChains == chains || fresh(nextChains)
    ensures nextStr == str || fresh(nextStr)
    ensures nextStr != name && nextNameLen <= 1024
    ensures 0 < nextStr.Length && nextStrLen <= nextStr.Length && nextChainsLen < nextChains.Length
    ensures Reading(Reader(nextIsName, name[..nextNameLen], nextStr[..nextStrLen]), nextChains[..nextChainsLen])
         == FeedChains(st, c)
  {
    nextChains, nextChainsLen, nextStr := chains, chainsLen, str;
    nextNameLen, nextStrLen, nextIsName := nameLen, strLen, isName;
    ghost var closed := Reading(Reader(isName, name[..nameLen], str[..strLen]), chains[..chainsLen]);
    if !isName && c == '>' {
      nextIsName := true;
      nextChains, nextChainsLen := CloseChain(chains, chainsLen, Chain(name[..nameLen], str[..strLen]));
      nextNameLen := 0;
      nextStrLen := 0;
      closed := Reading(Fresh, nextChains[..nextChainsLen]);
    }
    assert closed == Reading(Reader(nextIsName, name[..nextNameLen], str[..nextStrLen]), nextChains[..nextChainsLen]);
    nextStr, nextNameLen, nextStrLen, nextIsName := FeedCharGrowing(name, nextNameLen, str, nextStrLen, nextIsName, c);
  }

  /** Appends a closed chain to `chains`, doubling the array first when the
      chain would take its last slot. */
  method CloseChain(chains: array<Chain>, chainsLen: nat, chain: Chain) returns (grown: array<Chain>, nextLen: nat)
    requires chainsLen < chains.Length
    modifies chains
    ensures grown == chains || fresh(grown)
    ensures nextLen == chainsLen + 1 && nextLen < grown.Length
    ensures grown[..nextLen] == old(chains[..chainsLen]) + [chain]
  {
    grown := chains;
    var chainsSize := chains.Length;
    if chainsLen + 1 == chainsSize {
      chainsSize := chainsSize * 2;
      grown := Grow(chains, chainsSize);
    }
    grown[chainsLen] := chain;
    nextLen := chainsLen + 1;
  }

  /** The loop body of `readFastaChains` for one character once any chain
      it closes is stored: as `readFastaChain`'s, except that a full `str`
      is doubled before a letter is written. */
  method FeedCharGrowing(name: array<char>, nameLen: nat, str: array<char>, strLen: nat, isName: bool, c: char)
    returns (grown: array<char>, nextNameLen: nat, nextStrLen: nat, nextIsName: bool)
    requires name != str && nameLen <= name.Length && 0 < str.Length && strLen <= str.Length
    requires isName ==> nameLen < name.Length
    modifies name, str
    ensures grown == str || fresh(grown)
    ensures grown != name && 0 < grown.Length
    ensures nextNameLen <= name.Length && nextStrLen <= grown.Length
    ensures Reader(nextIsName, name[..nextNameLen], grown[..nextStrLen])
         == Feed(Reader(isName, old(name[..nameLen]), old(str[..strLen])), c)
  {
    grown := str;
    nextNameLen, nextStrLen, nextIsName := nameLen, strLen, isName;
    if isName {
      if c == '\n' {
        name[nameLen] := '\0';
        nextIsName := false;
      } else if !(nameLen == 0 && c == '>') {
        name[nameLen] := c;
        nextNameLen := nameLen + 1;
      }
    } else if IsAlpha(c) {
      var strSize := str.Length;
      if strLen == strSize {
        strSize := strSize * 2;
        grown := Grow(str, strSize);
      }
      grown[strLen] := c;
      nextStrLen := strLen + 1;
    }
  }

  /** A file always yields at least one chain, one more than the '>'
      characters met after a header line. */
  lemma ChainCount(s: string)
    ensures |ReadAll(s)| == 1 + Closings(s, |s|)
  {
    ClosingsCounted(s, |s|);
  }

  /** The '>' characters among the first `n` that close a chain. */
  function Closings(s: string, n: nat): nat
    requires n <= |s|
  {
    if n == 0 then 0
    else Closings(s, n - 1) + (if s[n - 1] == '>' && !RunChains(Begin, s, n - 1).reader.isName then 1 else 0)
  }

  lemma {:induction false} ClosingsCounted(s: string, n: nat)
    requires n <= |s|
    ensures |RunChains(Begin, s, n).chains| == Closings(s, n)
  {
    if n > 0 {
      ClosingsCounted(s, n - 1);
    }
  }

  // ---------------------------------------------------------------------------
  // Independence from how the file is split into reads

  lemma {:induction false} RunChainsPrefix(st: Reading, s: string, t: string, n: nat)
    requires n <= |s|
    ensures RunChains(st, s + t, n) == RunChains(st, s, n)
  {
    if n > 0 {
      RunChainsPrefix(st, s, t, n - 1);
      assert (s + t)[n - 1] == s[n - 1];
    }
  }

  /** Reading `s` up to `pos + k` is reading up to `pos` and then `k`
      characters of the read `s[pos..pos + m]`. */
  lemma RunChainsFrom(st: Reading, s: string, pos: nat, m: nat, k: nat)
    requires pos + m <= |s| && k <= m
    ensures RunChains(st, s, pos + k) == RunChains(RunChains(st, s, pos), s[pos..pos + m], k)
  {
    var a, b, c := s[..pos], s[pos..pos + m], s[pos + m..];
    assert s == a + b + c;
    assert a + b == s[..pos + m];
    RunChainsPrefix(st, a + b, c, pos + k);
    assert RunChains(st, s, pos + k) == RunChains(st, a + b, |a| + k);
    RunChainsSplit(st, a, b, k);
    assert RunChains(st, a + b, |a| + k) == RunChains(RunChains(st, a, |a|), b, k);
    RunChainsPrefix(st, a + b, c, pos);
    RunChainsPrefix(st, a, b, pos);
  }

  /** Names that fit in the whole file fit in each of its reads. */
  lemma BlockNamesFit(s: string, pos: nat, m: nat)
    requires ChainNamesFit(s) && pos + m <= |s|
    ensures NamesFitIn(RunChains(Begin, s, pos), s[pos..pos + m])
  {
    var st, block := RunChains(Begin, s, pos), s[pos..pos + m];
    forall k | 0 <= k < m
      ensures RunChains(st, block, k) == RunChains(Begin, s, pos + k)
    {
      RunChainsFrom(Begin, s, pos, m, k);
    }
  }

  /** Reading `s` and then `t` from where `s` left off is reading `s + t`:
      nothing depends on where one read ends and the next begins. */
  lemma {:induction false} RunChainsSplit(st: Reading, s: string, t: string, n: nat)
    requires n <= |t|
    ensures RunChains(st, s + t, |s| + n) == RunChains(RunChains(st, s, |s|), t, n)
  {
    if n == 0 {
      RunChainsPrefix(st, s, t, |s|);
    } else {
      RunChainsSplit(st, s, t, n - 1);
      assert (s + t)[|s| + n - 1] == t[n - 1];
    }
  }

  // ---------------------------------------------------------------------------
  // Round trip with a FASTA writer

  /** A chain a FASTA file can carry: a name without newline that does not
      start with '>', and residues that are letters. */
  predicate Writable(c: Chain)
  {
    && '\n' !in c.name
    && (c.name == [] || c.name[0] != '>')
    && forall k :: 0 <= k < |c.residues| ==> IsAlpha(c.residues[k])
  }

  /** One chain as a FASTA record: header line, then one line of residues. */
  function Record(c: Chain): string
  {
    ['>'] + c.name + ['\n'] + c.residues + ['\n']
  }

  function Format(chains: seq<Chain>): string
  {
    if chains == [] then [] else Format(chains[..|chains| - 1]) + Record(chains[|chains| - 1])
  }

  lemma {:induction false} NameRun(name: string, chains: seq<Chain>, n: nat)
    requires n <= |name| && '\n' !in name && (name == [] || name[0] != '>')
    ensures RunChains(Reading(Fresh, chains), name, n) == Reading(Reader(true, name[..n], []), chains)
  {
    if n > 0 {
      NameRun(name, chains, n - 1);
      assert name[..n] == name[..n - 1] + [name[n - 1]];
    }
  }

  lemma {:induction false} ResiduesRun(name: string, residues: string, chains: seq<Chain>, n: nat)
    requires n <= |residues| && forall k :: 0 <= k < |residues| ==> IsAlpha(residues[k])
    ensures RunChains(Reading(Reader(false, name, []), chains), residues, n) == Reading(Reader(false, name, residues[..n]), chains)
  {
    if n > 0 {
      ResiduesRun(name, residues, chains, n - 1);
      assert residues[..n] == residues[..n - 1] + [residues[n - 1]];
    }
  }

  /** The whole of `s` read from `st`. */
  function ReadFrom(st: Reading, s: string): Reading
  {
    RunChains(st, s, |s|)
  }

  lemma ReadFromSplit(st: Reading, s: string, t: string)
    ensures ReadFrom(st, s + t) == ReadFrom(ReadFrom(st, s), t)
  {
    RunChainsSplit(st, s, t, |t|);
  }

  lemma ReadFromOne(st: Reading, c: char)
    ensures ReadFrom(st, [c]) == FeedChains(st, c)
  {
    assert RunChains(st, [c], 0) == st;
  }

  lemma SnocSplit<T>(s: seq<T>)
    requires |s| > 0
    ensures s[..|s| - 1] + [s[|s| - 1]] == s
  {
  }

  /** After its leading '>', a record leaves the reader past the header with
      the record's name and residues. */
  lemma RecordBody(c: Chain, chains: seq<Chain>)
    requires Writable(c)
    ensures ReadFrom(Reading(Fresh, chains), c.name + ['\n'] + c.residues + ['\n'])
         == Reading(Reader(false, c.name, c.residues), chains)
  {
    var st := Reading(Fresh, chains);
    var s2 := c.name + ['\n'];
    var s3 := s2 + c.residues;
    NameRun(c.name, chains, |c.name|);
    assert c.name[..|c.name|] == c.name;
    var r1 := Reading(Reader(true, c.name, []), chains);
    assert ReadFrom(st, c.name) == r1;
    ReadFromSplit(st, c.name, ['\n']);
    ReadFromOne(r1, '\n');
    var r2 := Reading(Reader(false, c.name, []), chains);
    assert ReadFrom(st, s2) == r2;
    ResiduesRun(c.name, c.residues, chains, |c.residues|);
    assert c.residues[..|c.residues|] == c.residues;
    ReadFromSplit(st, s2, c.residues);
    var r3 := Reading(Reader(false, c.name, c.residues), chains);
    assert ReadFrom(st, s3) == r3;
    ReadFromSplit(st, s3, ['\n']);
    ReadFromOne(r3, '\n');
  }

  /** What reading a well-formed file leaves: the last record still open,
      every earlier one closed. */
  lemma {:induction false} FormatRun(chains: seq<Chain>)
    requires |chains| >= 1 && forall k :: 0 <= k < |chains| ==> Writable(chains[k])
    ensures var last := chains[|chains| - 1];
      ReadFrom(Begin, Format(chains)) == Reading(Reader(false, last.name, last.residues), chains[..|chains| - 1])
  {
    var init := chains[..|chains| - 1];
    var last := chains[|chains| - 1];
    var s := Format(init);
    var before := ReadFrom(Begin, s);
    var body := last.name + ['\n'] + last.residues + ['\n'];
    assert Format(chains) == s + (['>'] + body);
    if init == [] {
      assert before == Reading(Fresh, init);
    } else {
      FormatRun(init);
      SnocSplit(init);
    }
    ReadFromOne(before, '>');
    assert ReadFrom(before, ['>']) == Reading(Fresh, init);
    ReadFromSplit(Begin, s, ['>'] + body);
    ReadFromSplit(before, ['>'], body);
    RecordBody(last, init);
  }

  /** Reading back a written FASTA file gives the chains that were written. */
  lemma FastaRoundTrip(chains: seq<Chain>)
    requires |chains| >= 1 && forall k :: 0 <= k < |chains| ==> Writable(chains[k])
    ensures ReadAll(Format(chains)) == chains
  {
    FormatRun(chains);
    SnocSplit(chains);
  }

  // ---------------------------------------------------------------------------
  // Scorers

  /** A substitution table over residue codes with the gap penalties, what
      `scorerCreate` receives. */
  datatype Scorer = Scorer(name: string, scores: seq<seq<int>>, gapOpen: int, gapExtend: int)

  /** A square table of side `maxCode` with `matchScore` on the diagonal and
      `mismatchScore` everywhere else. */
  predicate IsConstTable(t: seq<seq<int>>, maxCode: nat, matchScore: int, mismatchScore: int)
  {
    && |t| == maxCode
    && (forall i :: 0 <= i < maxCode ==> |t[i]| == maxCode)
    && forall i, j :: 0 <= i < maxCode && 0 <= j < maxCode ==> t[i][j] == if i == j then matchScore else mismatchScore
  }

  /** The table `scorerCreate` keeps: the rows of the 2-D array. */
  function TableOf(a: array2<int>): (t: seq<seq<int>>)
    reads a
    ensures |t| == a.Length0
    ensures forall i :: 0 <= i < a.Length0 ==> |t[i]| == a.Length1
    ensures forall i, j :: 0 <= i < a.Length0 && 0 <= j < a.Length1 ==> t[i][j] == a[i, j]
  {
    seq(a.Length0, i requires 0 <= i < a.Length0 reads a =>
      seq(a.Length1, j requires 0 <= j < a.Length1 reads a => a[i, j]))
  }

  /** `scorerCreateConst`: a match/mismatch table over the `maxCode` residue
      codes (`SCORER_MAX_CODE`), built in two nested loops. */
  method ScorerCreateConst(maxCode: nat, matchScore: int, mismatchScore: int, gapOpen: int, gapExtend: int)
    returns (scorer: Scorer)
    ensures scorer.name == "CONST" && scorer.gapOpen == gapOpen && scorer.gapExtend == gapExtend
    ensures IsConstTable(scorer.scores, maxCode, matchScore, mismatchScore)
  {
    var scores := new int[maxCode, maxCode];
    for i := 0 to maxCode
      invariant forall p, q :: 0 <= p < i && 0 <= q < maxCode ==> scores[p, q] == if p == q then matchScore else mismatchScore
    {
      for j := 0 to maxCode
        invariant forall p, q :: 0 <= p < i && 0 <= q < maxCode ==> scores[p, q] == if p == q then matchScore else mismatchScore
        invariant forall q :: 0 <= q < j ==> scores[i, q] == if i == q then matchScore else mismatchScore
      {
        scores[i, j] := if i == j then matchScore else mismatchScore;
      }
    }
    scorer := Scorer("CONST", TableOf(scores), gapOpen, gapExtend);
  }

  /** A constant table scores a pair the same either way round, and no pair
      better than an identical one when `matchScore` is at least
      `mismatchScore`. */
  lemma ConstTableSymmetric(t: seq<seq<int>>, maxCode: nat, matchScore: int, mismatchScore: int, i: nat, j: nat)
    requires IsConstTable(t, maxCode, matchScore, mismatchScore) && i < maxCode && j < maxCode
    ensures t[i][j] == t[j][i]
    ensures matchScore >= mismatchScore ==> t[i][j] <= t[i][i]
  {
  }

  /** The built-in substitution tables. */
  datatype Table = Blosum45 | Blosum50 | Blosum62 | Blosum80 | Blosum90 | Pam30 | Pam70 | Pam250

  /** The name each table is asked for by. */
  function TableName(t: Table): string
  {
    match t
    case Blosum45 => "BLOSUM_45"
    case Blosum50 => "BLOSUM_50"
    case Blosum62 => "BLOSUM_62"
    case Blosum80 => "BLOSUM_80"
    case Blosum90 => "BLOSUM_90"
    case Pam30 => "PAM_30"
    case Pam70 => "PAM_70"
    case Pam250 => "PAM_250"
  }

  /** `scorerCreateMatrix`: the names are tried in a fixed order and an
      unknown name falls back to BLOSUM_62. */
  function ScorerCreateMatrix(name: string): (t: Table)
    ensures t == Blosum62 || name == TableName(t)
    ensures (forall u :: name != TableName(u)) ==> t == Blosum62
  {
    if name == TableName(Blosum45) then Blosum45
    else if name == TableName(Blosum50) then Blosum50
    else if name == TableName(Blosum62) then Blosum62
    else if name == TableName(Blosum80) then Blosum80
    else if name == TableName(Blosum90) then Blosum90
    else if name == TableName(Pam30) then Pam30
    else if name == TableName(Pam70) then Pam70
    else if name == TableName(Pam250) then Pam250
    else Blosum62
  }

  /** Every table is chosen by its own name. */
  lemma MatrixByName(t: Table)
    ensures ScorerCreateMatrix(TableName(t)) == t
  {
  }
}
