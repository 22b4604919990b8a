/** The chunker's configuration and the chunks it makes. */
module Chunks {

  datatype ChunkingConfig = ChunkingConfig(
    chunkSize: int, chunkOverlap: int, maxChunkSize: int, minChunkSize: int)
  {
    /** What __post_init__ lets through. */
    predicate Accepted() {
      chunkOverlap < chunkSize && minChunkSize > 0
    }

    /** A window is cut at a sentence end only if that end lies more than this far from its start. */
    function Reach(): int {
      if minChunkSize > chunkSize - 200 then minChunkSize else chunkSize - 200
    }

    /** Accepted, with an overlap that every cut outruns. */
    predicate Progresses() {
      Accepted() && chunkOverlap < Reach() + 2
    }

    /** The least distance from one chunk's start to the next. */
    function Stride(): int {
      (if chunkSize < Reach() + 2 then chunkSize else Reach() + 2) - chunkOverlap
    }
  }

  const DEFAULTS := ChunkingConfig(1000, 200, 2000, 100)

  /** A chunk and its metadata; tokens are estimated at four characters each. */
  datatype DocumentChunk = DocumentChunk(
    content: string, index: nat, startChar: int, endChar: int, totalChunks: nat, tokenCount: nat)

  /** The chunk has this content and place in the list, and one token for every four whole characters. */
  predicate Describes(chunk: DocumentChunk, content: string, index: nat, total: nat) {
    && chunk.content == content && chunk.index == index && chunk.totalChunks == total
    && 4 * chunk.tokenCount <= |content| < 4 * (chunk.tokenCount + 1)
  }

  function MakeChunk(content: string, index: nat, startChar: int, endChar: int, totalChunks: nat): DocumentChunk {
    DocumentChunk(content, index, startChar, endChar, totalChunks, |content| / 4)
  }
}
