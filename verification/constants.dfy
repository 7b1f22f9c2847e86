/** The viewer's fixed sizes. */
module Constants {

  /** Number of pages loaded around the current one. */
  const LOADED_SIZE: int := 3

  /** Side of the grid of parts kept around the current point. */
  const GRID_SIZE: int := 7

  /** Number of rendered parts the cache keeps: GRID_SIZE squared. */
  const CACHE_SIZE: int := GRID_SIZE * GRID_SIZE

  /** Number of rendered thumbnails the cache keeps. */
  const THUMBNAILS_CACHE_SIZE: int := 4
}
