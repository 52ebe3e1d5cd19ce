# Six-frame translation of nucleotide records

A Dafny model of `six_frame_aminoacid.py`, a Python 2 script. The script reads
a FASTA-style file of nucleotide records. It translates every record in all
six reading frames and writes one output file per frame:

- frames 1-3 read the upper-cased sequence from offsets 0, 1 and 2;
- frames 4-6 read its reverse complement from offsets 0, 1 and 2.

The model covers:

- the codon table `aa_dict`;
- the three helper functions `split_input`, `translate` and `complement`;
- the record-reading loop;
- the frame derivation;
- the text written for each record;
- the output file names.

The script's loops are Dafny methods with loops: the chunking loop of
`split_input`, the codon loop of `translate`, the inner key scan, the
complement loop and the record-reading loop. Each is proved equal to a
specification function. These are recursive, except that the key scan is
proved equal to `Emit`, the direct lookup of one codon. The frame derivation
(lines 111-124) has no loop. It is a straight-line method calling those
methods, proved equal to the function `SixFrames`. The properties the script
relies on are lemmas about the specification functions.

Python 2 `str` is a byte string, so in the model one `char` stands for one
byte of the input. A multi-byte (for example UTF-8) character in the input
file is several bytes to the script, and `complement` writes one `C` for each
of them. Such a character is modelled as its bytes, one `char` each, not as a
single `char`.

Modules:

| module | file | models |
|---|---|---|
| `Wrappers` | wrappers.dfy | `Option` and `Result` |
| `PyStrings` | pystrings.dfy | Python 2 `str` slicing, `[::-1]`, `upper()`, `strip(c)` and `split(sep)[0]` |
| `Chunking` | chunking.dfy | `split_input` |
| `CodonTable` | codon_table.dfy | `aa_dict`, its inversion into the standard genetic code, and the per-codon key scan |
| `Nucleotides` | nucleotides.dfy | `complement` and the reverse complement |
| `Translator` | translator.dfy | `translate` |
| `Frames` | frames.dfy | the six strands and their translations |
| `Records` | records.dfy | the record-reading loop |
| `Output` | output.dfy | output names, header lines and 80-column wrapping |

Where the script's behaviour is surprising, the model follows the code:

- **Repeated identifier.** A header line whose identifier was already seen
  resets that entry to the empty string. Only the data after the last such
  header survives, as `Records.LastHeaderWins` states. Repeats do not
  accumulate.
- **Empty input.** `split_input` of an empty string gives no chunks at all.
  So an empty translation writes only the header line.
- **Complementing twice.** Complementing twice gives back every string over
  A, C, G and T, G and C included. Any other character maps to C, so it
  does not survive: N becomes C, then G.
- **Header identifier.** The identifier is `strip('>')` followed by
  `strip('\n')`. These are two sequential strips: every leading and trailing
  '>' goes first, then every leading and trailing newline.
- **`upper()`.** It changes only the ASCII letters a-z, as Python 2 `str`
  does.

`translate` visits the dictionary's keys in Python's dict order, which the
script does not fix. The model scans a fixed order, the order the table is
listed in (`KeyOrder`). `CodonTable.ScanIsEmit` proves that any order of
the 21 distinct keys gives the same result. This holds because no codon is
listed under two keys.

## Model

| member | source | states |
|---|---|---|
| CodonTable.AaDict | six_frame_aminoacid.py:20-42 | the 21 keys and their codon lists exactly as listed; `EveryCodonListed` and `ListedCodonsAgree` tie it to the standard genetic code |
| CodonTable.Scan | six_frame_aminoacid.py:65-67 | the key loop for one codon over a given key order, appending each key whose list holds the codon; `ScanIsEmit` proves it equals `Emit` for any order of the 21 keys |
| Chunking.Chunks | six_frame_aminoacid.py:45-53 | the chunks of `s`: a first chunk of `size` characters, then the chunks of the rest, a short string being one chunk; `ChunksJoin`, `ChunksShape`, `ChunksCount` and `ChunkAt` characterize it |
| Translator.Translation | six_frame_aminoacid.py:55-68 | `translate(s)`: the lookups of the size-3 chunks in codon order; the Translation lemmas state its length and how it splits |
| PyStrings.Strip | six_frame_aminoacid.py:91 | `strip(c)` as `lstrip(c)` then `rstrip(c)`; `StripShape` states the piece it keeps |
| Records.HeaderId | six_frame_aminoacid.py:91 | a header's identifier is `strip('>')` followed by `strip('\n')`; `HeaderIdExamples` shows both strips |
| Records.DataOf | six_frame_aminoacid.py:95 | a data line with its leading and trailing newlines stripped |
| Records.Run | six_frame_aminoacid.py:88-96 | the loop's state after the given lines, or the NameError; a successful state always has an entry for the current identifier |
| Records.Parse | six_frame_aminoacid.py:88-96 | the dictionary `seqdict` built from the lines, or the NameError |
| Frames.FrameStrands | six_frame_aminoacid.py:111-117 | the strands s1..s6: the upper-cased sequence from offsets 0, 1, 2 and its reverse complement from offsets 0, 1, 2; `FrameStrandsShape` states each strand |
| Output.HeaderLine | six_frame_aminoacid.py:126 | `">" + k + "_frameN" + "\n"` |
| Output.WrapLines | six_frame_aminoacid.py:127-128 | one line per chunk, each followed by a newline; `WrapLinesContent` states its content and line count |
| Output.RecordText | six_frame_aminoacid.py:126-128 | the header line followed by the translation wrapped at 80 symbols; `RecordBody` and `RecordTextEmpty` state its lines |
| Output.OutputName | six_frame_aminoacid.py:98-106 | `infile.split('.')[0] + "_frameN.fa"`; `OutputNames` states the base name and that the six names differ |
| Chunking.SplitInput | six_frame_aminoacid.py:45-53 | the chunking loop returns exactly `Chunks(s, size)`, the consecutive pieces of `s` |
| Chunking.CeilDiv | six_frame_aminoacid.py:47-49 | floor division plus one on a remainder is the ceiling: `q * d >= n`, and `(q - 1) * d < n` when `q > 0` |
| Chunking.ChunksJoin | six_frame_aminoacid.py:45-53 | joining the chunks in order gives back the input exactly |
| Chunking.ChunksShape | six_frame_aminoacid.py:45-53 | every chunk is non-empty and at most `chunk_size` long; all but the last are exactly `chunk_size` long |
| Chunking.ChunksCount | six_frame_aminoacid.py:47-49 | the number of chunks is ceil(len / chunk_size), so 0 for the empty string |
| Chunking.ChunkAt | six_frame_aminoacid.py:51-52 | chunk i is the clamped slice `s[size*i : size*(i+1)]`, as the loop writes it |
| Chunking.ChunksAppend | six_frame_aminoacid.py:45-53 | if the left part's length is a multiple of the size, the chunks of `a + b` are the chunks of `a` followed by the chunks of `b` |
| CodonTable.ListedCodonsAgree | six_frame_aminoacid.py:20-42 | every listed codon is one of the 64 codons, and the standard genetic code maps it back to the key it is listed under |
| CodonTable.EveryCodonListed | six_frame_aminoacid.py:20-42 | each of the 64 codons is listed, under the key the genetic code gives it |
| CodonTable.LookupAgreesWithDict | six_frame_aminoacid.py:20-42 | `codon in aa_dict[k]` holds exactly when the inverted table maps the codon to `k`, so no codon is listed under two keys |
| CodonTable.Emit | six_frame_aminoacid.py:64-67 | one codon contributes at most one symbol, and exactly one when it is one of the 64 codons |
| CodonTable.ScanFindsOwner | six_frame_aminoacid.py:65-67 | scanning distinct keys yields the codon's own key if it is among them, otherwise nothing |
| CodonTable.ScanIsEmit | six_frame_aminoacid.py:65-67 | whatever order the 21 keys are visited in, the scan appends exactly the codon's symbol, or nothing |
| CodonTable.KeyOrderEnumeratesDict | six_frame_aminoacid.py:20-42 | the listing order holds 21 distinct keys, all of them and only them |
| Translator.LookupCodon | six_frame_aminoacid.py:64-67 | the inner key loop appends exactly `Emit(codon)` |
| Translator.Translate | six_frame_aminoacid.py:55-68 | `translate` returns `Translation(s)`: the symbols of the size-3 chunks, in codon order |
| Translator.TranslateCodons | six_frame_aminoacid.py:64-67 | at most one symbol per codon |
| Translator.TranslateCodonsSymbols | six_frame_aminoacid.py:64-67 | only keys of `aa_dict` appear in a translation |
| Translator.TranslateCodonsAppend | six_frame_aminoacid.py:64-67 | translating a concatenation of codon lists concatenates their translations |
| Translator.TranslationAppend | six_frame_aminoacid.py:55-68 | if the left part is whole codons, the translation of `a + b` is the translation of `a` followed by that of `b` |
| Translator.TranslationAtCodon | six_frame_aminoacid.py:62-67 | a codon at a codon boundary contributes its own lookup in place; a codon not in the table contributes nothing |
| Translator.TranslationDropsRaggedTail | six_frame_aminoacid.py:60-63 | a trailing ragged codon of one or two characters adds nothing |
| Translator.TranslationLength | six_frame_aminoacid.py:59-67 | the translation is at most ceil(len / 3) long |
| Translator.TranslationExactLength | six_frame_aminoacid.py:59-67 | a strand over A, C, G, T of whole codons translates to exactly len / 3 symbols |
| Translator.TranslationCons | six_frame_aminoacid.py:62-67 | reading from the front gives the first codon's lookup, then the rest |
| Translator.TranslationOfThree | six_frame_aminoacid.py:62-67 | three whole codons translate to their three lookups, in order |
| Translator.EmitExamples | six_frame_aminoacid.py:21-41 | ATG→M, AAA→K, TAG→-, CTA→L, TTT→F, CAT→H |
| Translator.TranslationExampleForward | six_frame_aminoacid.py:55-68 | "ATGAAATAG" translates to "MK-" |
| Translator.TranslationExampleRagged | six_frame_aminoacid.py:55-68 | "ATGAAAT" translates to "MK" |
| Translator.TranslationExampleMinus | six_frame_aminoacid.py:55-68 | "CTATTTCAT" translates to "LFH" |
| Nucleotides.ComplementBase | six_frame_aminoacid.py:74-81 | the result is always A, C, G or T, and every non-base character becomes C |
| Nucleotides.Complemented | six_frame_aminoacid.py:70-82 | same length; position by position the complement of the input; only bases in the result |
| Nucleotides.Complement | six_frame_aminoacid.py:70-82 | the character loop returns exactly `Complemented(s)` |
| Nucleotides.ComplementTwice | six_frame_aminoacid.py:70-82 | complementing twice gives back `s` if and only if `s` is over A, C, G, T |
| Nucleotides.ComplementTwiceCounterexample | six_frame_aminoacid.py:80-81 | "N" complemented twice is "G" |
| Nucleotides.ReverseComplement | six_frame_aminoacid.py:115 | `complement(s[::-1])` has the same length, only bases, and position i is the complement of position len-1-i |
| Nucleotides.ReverseComplementTwice | six_frame_aminoacid.py:115 | over A, C, G, T the reverse complement is an involution |
| Nucleotides.ReverseComplementDrop | six_frame_aminoacid.py:115-117 | dropping k characters from the reverse complement is the reverse complement of the strand without its last k characters |
| Frames.SixFrames | six_frame_aminoacid.py:119-124 | six translations, one per frame |
| Frames.FrameStrandsShape | six_frame_aminoacid.py:111-117 | frame k+1 reads the upper-cased sequence from offset k; frame k+4 is the reverse complement of the sequence without its last k characters; both have the same length; a sequence shorter than the offset gives empty strands; minus strands hold only bases |
| Frames.TranslateFrames | six_frame_aminoacid.py:111-124 | the frame derivation returns exactly `SixFrames(raw)` |
| Frames.StrandsExample | six_frame_aminoacid.py:111-115 | lower-case input is upper-cased first; the reverse complement of ATGAAATAG is CTATTTCAT |
| Frames.SixFramesExample | six_frame_aminoacid.py:111-124 | for ATGAAATAG, frame 1 reads "MK-" and frame 4 reads "LFH" |
| PyStrings.Slice | six_frame_aminoacid.py:112-113 | Python slicing clamps out-of-range bounds and never fails |
| PyStrings.Reverse | six_frame_aminoacid.py:115 | `s[::-1]` has the same length and reversed positions |
| PyStrings.Upper | six_frame_aminoacid.py:111 | `upper()` keeps the length and changes only a-z |
| PyStrings.StripShape | six_frame_aminoacid.py:91 | `strip(c)` cuts out a piece between two runs of `c`; the result neither starts nor ends with `c`; a string without `c` is unchanged |
| PyStrings.FirstField | six_frame_aminoacid.py:98-99 | `split(sep)[0]` is the prefix before the first separator and holds no separator |
| Records.Step | six_frame_aminoacid.py:89-96 | one line: a header sets the current identifier and resets its entry; a data line fails exactly when no header has been read |
| Records.ParseRecords | six_frame_aminoacid.py:88-96 | the reading loop returns exactly `Parse(lines)`, including the NameError case |
| Records.ErrorPersists | six_frame_aminoacid.py:96 | once reading has failed, more lines do not recover |
| Records.ParseFailsIffLeadingData | six_frame_aminoacid.py:89-96 | reading fails if and only if the first line is not a header; after a header there is always a current identifier |
| Records.ParsedIds | six_frame_aminoacid.py:90-93 | the dictionary has exactly one entry per distinct header identifier |
| Records.LastHeaderWins | six_frame_aminoacid.py:90-96 | a header followed by data lines leaves exactly that data, joined, under its identifier and changes no other entry |
| Records.HeaderIdExamples | six_frame_aminoacid.py:91 | ">seq1\n" names "seq1"; ">>a>\n" names "a>" |
| Output.RecordBody | six_frame_aminoacid.py:127-128 | with the line breaks removed, the wrapped body is the translation; it has ceil(len / 80) lines of at most 80 symbols |
| Output.ChunkHasNoNewline | six_frame_aminoacid.py:127-128 | a chunk of a line-free string holds no line break |
| Output.WrapLinesContent | six_frame_aminoacid.py:127-128 | one line per chunk, holding the chunks and nothing else |
| Output.RecordTextEmpty | six_frame_aminoacid.py:126-128 | an empty translation writes only the header line |
| Output.TranslationHasNoNewline | six_frame_aminoacid.py:55-68 | a translation never holds a line break |
| Output.RecordOutputs | six_frame_aminoacid.py:126-148 | six texts per record, one per output file |
| Output.RecordOutputsAt | six_frame_aminoacid.py:126-148 | text k is the header plus the wrapped translation of frame k |
| Output.OutputNames | six_frame_aminoacid.py:98-106 | the base name is the input path up to its first '.'; each name is base + "_frameN.fa"; the six names differ |
| Output.ParseExample | six_frame_aminoacid.py:88-96 | ">seq1" then "ATGAAATAG" reads as {"seq1": "ATGAAATAG"} |
| Output.RecordTextExample | six_frame_aminoacid.py:126-140 | for that record, frames 1 and 4 write ">seq1_frame1\nMK-\n" and ">seq1_frame4\nLFH\n" |

## Left out

- Command-line arguments, opening the input file and writing the six output
  files are left out. `OutputName` and `RecordText` model the names and the
  text that would be written.
- Python 2's universal-newline mode `'U'` and the splitting of the file into
  lines are left out. `ParseRecords` takes the lines as they are read,
  each with its trailing newline.
- The order in which records are written follows Python's unspecified
  dict iteration order. The model gives the text of each record and frame;
  the order of records within an output file is not modelled.
- The `usage` string is left out because the script never prints it.
- Chunking.SplitInput: requires `chunk_size > 0`. The script calls
  `split_input` only with 80, at lines 127, 131, 135, 139, 143 and 147. The
  size-3 cutting in `translate` (lines 59-63) is its own copy of the same
  loop, which `Translator.Translate` models by calling `SplitInput(s, 3)`.
  With 0 the source would raise ZeroDivisionError; that path is not modelled.
- Translator.Translate: the `aa_dict=aa_dict` parameter of `translate`
  (line 55) is not modelled. The table is fixed to `CodonTable.AaDict`,
  and no call site passes another table.
- Exceptions other than the NameError for a data line before any header are
  not modelled. These include a missing argument and an unreadable file.
