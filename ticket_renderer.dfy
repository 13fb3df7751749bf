/**
 * `generateTicket`: the values the ticket layout is filled with. The layout itself (logo,
 * the fixed date "Jan 31, 2025 / Austin, TX" and number "#01609", class names) is markup
 * and not modelled; the ticket is the record of the four values substituted into it.
 */
module TicketRenderer {
  import opened Options
  import opened AvatarUpload

  const DefaultAvatar: string := "./assets/images/image-avatar.jpg"

  /** The snapshot `handleFormSubmit` takes: the three trimmed inputs and the selected avatar. */
  datatype FormData = FormData(name: string, email: string, github: string, avatar: Option<DataUrl>)

  datatype Ticket = Ticket(avatarUrl: string, name: string, email: string, github: string)

  /** The ticket shows the form values as they are, and the selected avatar or, when none
      is selected, the placeholder image; the two can never be confused. */
  function GenerateTicket(d: FormData): (t: Ticket)
    ensures t.name == d.name && t.email == d.email && t.github == d.github
    ensures d.avatar.Some? ==> t.avatarUrl == d.avatar.value
    ensures t.avatarUrl == DefaultAvatar <==> d.avatar.None?
  {
    var url := if d.avatar.Some? then d.avatar.value else DefaultAvatar;
    // A data URL has 'a' as its second character and the placeholder has '/', so they differ.
    assert d.avatar.Some? ==> url[..5][1] == "data:"[1] != DefaultAvatar[1];
    Ticket(url, d.name, d.email, d.github)
  }
}
