/**
 * The in-memory object model of Projeto/models.py: clients with a reservation history,
 * administrators, categories with their articles, articles with an availability flag,
 * and reservations with a total and a state.
 */
module Modelos {
  import Reservations

  /** The state strings "Pendente", "Confirmada" and "Cancelada". */
  datatype Estado = Pendente | Confirmada | Cancelada

  class Categoria {
    const id: int
    const nome: string
    const descricao: string
    var artigos: seq<ArtigoDesportivo>

    constructor (id: int, nome: string, descricao: string)
      ensures this.id == id && this.nome == nome && this.descricao == descricao && artigos == []
    {
      this.id := id;
      this.nome := nome;
      this.descricao := descricao;
      artigos := [];
    }

    /** `adicionar_artigo`: append the article to the category's list. */
    method AdicionarArtigo(artigo: ArtigoDesportivo)
      modifies this
      ensures artigos == old(artigos) + [artigo]
    {
      artigos := artigos + [artigo];
    }
  }

  class ArtigoDesportivo {
    const id: int
    const nome: string
    const marca: string
    const precoPorHora: real
    const categoria: Categoria
    var disponivel: bool

    constructor (id: int, nome: string, marca: string, precoPorHora: real, categoria: Categoria, disponivel: bool)
      ensures this.id == id && this.nome == nome && this.marca == marca && this.precoPorHora == precoPorHora
      ensures this.categoria == categoria && this.disponivel == disponivel
    {
      this.id := id;
      this.nome := nome;
      this.marca := marca;
      this.precoPorHora := precoPorHora;
      this.categoria := categoria;
      this.disponivel := disponivel;
    }

    /** `verificar_disponibilidade`: the article's availability flag. */
    function VerificarDisponibilidade(): (d: bool)
      reads this
      ensures d <==> disponivel
    {
      disponivel
    }
  }

  class Cliente {
    const id: int
    const nome: string
    const email: string
    const morada: string
    const telefone: string
    var reservas: seq<Reserva>

    constructor (id: int, nome: string, email: string, morada: string, telefone: string)
      ensures this.id == id && this.nome == nome && this.email == email
      ensures this.morada == morada && this.telefone == telefone && reservas == []
    {
      this.id := id;
      this.nome := nome;
      this.email := email;
      this.morada := morada;
      this.telefone := telefone;
      reservas := [];
    }

    /** `fazer_reserva`: the reservation joins the end of the client's history. */
    method FazerReserva(reserva: Reserva)
      modifies this
      ensures reservas == old(reservas) + [reserva]
    {
      reservas := reservas + [reserva];
    }

    /** `consultar_historico`: the reservations in the order they were made. */
    method ConsultarHistorico() returns (h: seq<Reserva>)
      ensures h == reservas
    {
      h := reservas;
    }
  }

  class Administrador {
    const id: int
    const nome: string
    const email: string
    const nivelAcesso: int

    constructor (id: int, nome: string, email: string, nivelAcesso: int)
      ensures this.id == id && this.nome == nome && this.email == email && this.nivelAcesso == nivelAcesso
    {
      this.id := id;
      this.nome := nome;
      this.email := email;
      this.nivelAcesso := nivelAcesso;
    }

    /** `gerir_stock`: set the article's availability, whatever it was. */
    method GerirStock(artigo: ArtigoDesportivo, disponivel: bool)
      modifies artigo
      ensures artigo.disponivel == disponivel
    {
      artigo.disponivel := disponivel;
    }

    /** `cancelar_reserva`: the reservation becomes Cancelada from any state, nothing else changes. */
    method CancelarReserva(reserva: Reserva)
      modifies reserva
      ensures reserva.estado == Cancelada && reserva.valorTotal == old(reserva.valorTotal)
    {
      reserva.estado := Cancelada;
    }
  }

  /** The sum, from left to right, of each article's hourly price times `horas`. */
  function Soma(artigos: seq<ArtigoDesportivo>, horas: real): (t: real)
    ensures (forall k :: 0 <= k < |artigos| ==> artigos[k].precoPorHora >= 0.0) && horas >= 0.0 ==> t >= 0.0
    ensures artigos == [] ==> t == 0.0
  {
    if artigos == [] then 0.0
    else Soma(artigos[..|artigos| - 1], horas) + artigos[|artigos| - 1].precoPorHora * horas
  }

  /** The total is additive over the article list, so it does not depend on how the list was built up. */
  lemma {:induction false} SomaConcat(a: seq<ArtigoDesportivo>, b: seq<ArtigoDesportivo>, horas: real)
    ensures Soma(a + b, horas) == Soma(a, horas) + Soma(b, horas)
  {
    if b != [] {
      var init := b[..|b| - 1];
      assert (a + b)[..|a + b| - 1] == a + init;
      SomaConcat(a, init, horas);
    } else {
      assert a + b == a;
    }
  }

  /** The total is the hours times the sum of the hourly prices. */
  lemma {:induction false} SomaScales(artigos: seq<ArtigoDesportivo>, horas: real)
    ensures Soma(artigos, horas) == Soma(artigos, 1.0) * horas
  {
    if artigos != [] {
      SomaScales(artigos[..|artigos| - 1], horas);
    }
  }

  class Reserva {
    const id: int
    const cliente: Cliente
    const artigos: seq<ArtigoDesportivo>
    const dataInicio: int
    const dataFim: int
    var valorTotal: real
    var estado: Estado

    /** A new reservation is Pendente with a total of 0.0. */
    constructor (id: int, cliente: Cliente, artigos: seq<ArtigoDesportivo>, dataInicio: int, dataFim: int)
      ensures this.id == id && this.cliente == cliente && this.artigos == artigos
      ensures this.dataInicio == dataInicio && this.dataFim == dataFim
      ensures valorTotal == 0.0 && estado == Pendente
    {
      this.id := id;
      this.cliente := cliente;
      this.artigos := artigos;
      this.dataInicio := dataInicio;
      this.dataFim := dataFim;
      valorTotal := 0.0;
      estado := Pendente;
    }

    /** `calcular_total`: accumulate price times hours over the articles, then store and return the sum. */
    method CalcularTotal() returns (total: real)
      modifies this
      ensures total == valorTotal == Soma(artigos, Reservations.Hours(dataInicio, dataFim))
      ensures estado == old(estado)
    {
      var horas := Reservations.Hours(dataInicio, dataFim);
      total := 0.0;
      var k := 0;
      while k < |artigos|
        invariant 0 <= k <= |artigos|
        invariant total == Soma(artigos[..k], horas)
      {
        assert artigos[..k + 1][..k] == artigos[..k];
        total := total + artigos[k].precoPorHora * horas;
        k := k + 1;
      }
      assert artigos[..k] == artigos;
      valorTotal := total;
    }

    /** `confirmar`: the reservation becomes Confirmada from any state. */
    method Confirmar()
      modifies this
      ensures estado == Confirmada && valorTotal == old(valorTotal)
    {
      estado := Confirmada;
    }
  }
}
